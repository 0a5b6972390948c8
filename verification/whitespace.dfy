/** `String.prototype.trim` over ECMAScript's WhiteSpace and LineTerminator characters. */
module Whitespace {

  /**
   * Tab, line feed, vertical tab, form feed, carriage return, space, no-break
   * space, the Unicode space separators (Zs), line and paragraph separator, and
   * the byte-order mark.
   */
  predicate IsWhitespace(c: char) {
    || c == '\t' || c == '\n' || c == '\U{000B}' || c == '\U{000C}' || c == '\r'
    || c == ' ' || c == '\U{00A0}' || c == '\U{1680}'
    || ('\U{2000}' <= c <= '\U{200A}')
    || c == '\U{2028}' || c == '\U{2029}' || c == '\U{202F}' || c == '\U{205F}'
    || c == '\U{3000}' || c == '\U{FEFF}'
  }

  predicate AllWhitespace(s: string) {
    forall k :: 0 <= k < |s| ==> IsWhitespace(s[k])
  }

  /** Every character of `s` from `lo` up to `hi` is whitespace. */
  predicate BlankBetween(s: string, lo: int, hi: int)
    requires 0 <= lo && hi <= |s|
  {
    forall k :: lo <= k < hi ==> IsWhitespace(s[k])
  }

  function TrimStart(s: string): (r: string)
    ensures |r| <= |s| && r == s[|s| - |r|..]
    ensures BlankBetween(s, 0, |s| - |r|)
    ensures |r| > 0 ==> !IsWhitespace(r[0])
  {
    if |s| > 0 && IsWhitespace(s[0]) then TrimStart(s[1..]) else s
  }

  function TrimEnd(s: string): (r: string)
    ensures |r| <= |s| && r == s[..|r|]
    ensures BlankBetween(s, |r|, |s|)
    ensures |r| > 0 ==> !IsWhitespace(r[|r| - 1])
  {
    if |s| > 0 && IsWhitespace(s[|s| - 1]) then TrimEnd(s[..|s| - 1]) else s
  }

  /** `r` is `s` with `lead` whitespace characters cut in front and only whitespace cut behind. */
  predicate TrimmedAt(s: string, r: string, lead: nat) {
    && lead + |r| <= |s|
    && r == s[lead..lead + |r|]
    && BlankBetween(s, 0, lead)
    && BlankBetween(s, lead + |r|, |s|)
  }

  /** `s.trim()`: the middle of `s` between its leading and trailing whitespace. */
  function Trim(s: string): (r: string)
    ensures exists lead :: TrimmedAt(s, r, lead)
    ensures |r| > 0 ==> !IsWhitespace(r[0]) && !IsWhitespace(r[|r| - 1])
    ensures |r| == 0 <==> AllWhitespace(s)
  {
    var t := TrimStart(s);
    var r := TrimEnd(t);
    TrimmedBetween(s, t, r);
    BlankIffAllWhitespace(s, t, r);
    r
  }

  /** Cutting blanks in front and then behind leaves a middle piece of `s`. */
  lemma TrimmedBetween(s: string, t: string, r: string)
    requires |t| <= |s| && t == s[|s| - |t|..] && BlankBetween(s, 0, |s| - |t|)
    requires |r| <= |t| && r == t[..|r|] && BlankBetween(t, |r|, |t|)
    ensures TrimmedAt(s, r, |s| - |t|)
  {
    var lead := |s| - |t|;
    forall k | 0 <= k < |r| ensures s[lead + k] == r[k] {
      assert r[k] == t[k];
    }
    forall k | lead + |r| <= k < |s| ensures IsWhitespace(s[k]) {
      assert s[k] == t[k - lead];
    }
  }

  lemma BlankIffAllWhitespace(s: string, t: string, r: string)
    requires |t| <= |s| && t == s[|s| - |t|..] && BlankBetween(s, 0, |s| - |t|)
    requires |t| > 0 ==> !IsWhitespace(t[0])
    requires |r| <= |t| && r == t[..|r|] && BlankBetween(t, |r|, |t|)
    ensures |r| == 0 <==> AllWhitespace(s)
  {
  }
}
