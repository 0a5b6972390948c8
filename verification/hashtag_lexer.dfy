/**
 * The scanner behind both hashtag regular expressions, `/#([C]+)/g` for a
 * character class C. A global `match`/`exec`/`replace` finds the leftmost
 * position where `#` is followed by a class character, takes the longest run of
 * class characters after it, and resumes after the run. The model cuts the text
 * into tokens: `Tag(body)` for each such match and `Chr(c)` for every character
 * no match covers.
 */
module HashtagLexer {

  /** Which character class a hashtag body is drawn from. */
  datatype TagSyntax =
    | WordOrHangul    // `[\w가-힣]` in lib/hashtags.ts
    | LetterOrNumber  // `[\p{L}\p{N}_]` with the `u` flag in src/lib/utils.ts

  /** `\w`: ASCII letters, ASCII digits and `_`. */
  predicate IsAsciiWordChar(c: char) {
    ('a' <= c <= 'z') || ('A' <= c <= 'Z') || ('0' <= c <= '9') || c == '_'
  }

  /** The precomposed Hangul syllables U+AC00..U+D7A3 (and not the Hangul jamo). */
  predicate IsHangulSyllable(c: char) {
    '\U{AC00}' <= c <= '\U{D7A3}'
  }

  /**
   * Code points of general category L (letter) or N (number). The model lists a
   * fixed set of ranges, every one of which lies inside L or N: ASCII, Latin-1
   * and Latin Extended-A/B letters, the Latin-1 superscripts and fractions, the
   * basic Greek and Cyrillic alphabets, Hangul jamo and syllables, kana, and the
   * CJK unified ideographs.
   */
  predicate IsLetterOrNumber(c: char) {
    || ('a' <= c <= 'z') || ('A' <= c <= 'Z') || ('0' <= c <= '9')
    || c == '\U{00AA}' || c == '\U{00B2}' || c == '\U{00B3}' || c == '\U{00B5}'
    || c == '\U{00B9}' || c == '\U{00BA}' || ('\U{00BC}' <= c <= '\U{00BE}')
    || ('\U{00C0}' <= c <= '\U{00D6}') || ('\U{00D8}' <= c <= '\U{00F6}')
    || ('\U{00F8}' <= c <= '\U{024F}')
    || ('\U{0391}' <= c <= '\U{03A1}') || ('\U{03A3}' <= c <= '\U{03A9}')
    || ('\U{03B1}' <= c <= '\U{03C9}') || ('\U{0410}' <= c <= '\U{044F}')
    || ('\U{1100}' <= c <= '\U{11FF}') || ('\U{3041}' <= c <= '\U{3096}')
    || ('\U{30A1}' <= c <= '\U{30FA}') || ('\U{3131}' <= c <= '\U{318E}')
    || ('\U{4E00}' <= c <= '\U{9FCC}') || IsHangulSyllable(c)
  }

  predicate IsTagChar(syn: TagSyntax, c: char) {
    match syn
    case WordOrHangul => IsAsciiWordChar(c) || IsHangulSyllable(c)
    case LetterOrNumber => IsLetterOrNumber(c) || c == '_'
  }

  /** Neither `#` nor `<` can be part of a hashtag body, in either syntax. */
  lemma MarkersAreNotTagChars(syn: TagSyntax)
    ensures !IsTagChar(syn, '#') && !IsTagChar(syn, '<')
  {
  }

  /** A piece of the scanned text: a plain character or a whole hashtag match. */
  datatype Token = Chr(c: char) | Tag(body: string)

  /** The text a token stands for; a match includes its `#`. */
  function TokenText(t: Token): string {
    match t
    case Chr(c) => [c]
    case Tag(body) => "#" + body
  }

  /** The first character of a token's text. */
  function Lead(t: Token): char {
    match t
    case Chr(c) => c
    case Tag(_) => '#'
  }

  /** The text a token sequence stands for. */
  function Render(toks: seq<Token>): string {
    if |toks| == 0 then "" else TokenText(toks[0]) + Render(toks[1..])
  }

  predicate ValidBody(syn: TagSyntax, body: string) {
    |body| > 0 && forall k :: 0 <= k < |body| ==> IsTagChar(syn, body[k])
  }

  /**
   * Token `i` respects the regular expression: a match has a non-empty body of
   * class characters and is not followed by another class character (the `+`
   * is greedy), and a plain `#` is not followed by a class character (otherwise
   * a match would start there).
   */
  predicate TokenOk(syn: TagSyntax, toks: seq<Token>, i: int)
    requires 0 <= i < |toks|
  {
    var followedByTagChar := i + 1 < |toks| && IsTagChar(syn, Lead(toks[i + 1]));
    match toks[i]
    case Tag(body) => ValidBody(syn, body) && !followedByTagChar
    case Chr(c) => c == '#' ==> !followedByTagChar
  }

  predicate WellFormed(syn: TagSyntax, toks: seq<Token>) {
    forall i :: 0 <= i < |toks| ==> TokenOk(syn, toks, i)
  }

  /** A match starts at the front of `s`. */
  predicate StartsTag(syn: TagSyntax, s: string) {
    |s| >= 2 && s[0] == '#' && IsTagChar(syn, s[1])
  }

  /** The length of the longest prefix of `s` made of class characters. */
  function RunLength(syn: TagSyntax, s: string): (n: nat)
    ensures n <= |s|
    ensures forall k :: 0 <= k < n ==> IsTagChar(syn, s[k])
    ensures n < |s| ==> !IsTagChar(syn, s[n])
  {
    if |s| > 0 && IsTagChar(syn, s[0]) then 1 + RunLength(syn, s[1..]) else 0
  }

  lemma {:induction false} RunLengthOf(syn: TagSyntax, body: string, rest: string)
    requires forall k :: 0 <= k < |body| ==> IsTagChar(syn, body[k])
    requires |rest| > 0 ==> !IsTagChar(syn, rest[0])
    ensures RunLength(syn, body + rest) == |body|
    decreases |body|
  {
    if |body| > 0 {
      assert (body + rest)[1..] == body[1..] + rest;
      RunLengthOf(syn, body[1..], rest);
    } else {
      assert body + rest == rest;
    }
  }

  lemma WellFormedCons(syn: TagSyntax, t: Token, rest: seq<Token>)
    requires WellFormed(syn, rest)
    requires TokenOk(syn, [t] + rest, 0)
    ensures WellFormed(syn, [t] + rest)
  {
    var toks := [t] + rest;
    forall i | 1 <= i < |toks| ensures TokenOk(syn, toks, i) {
      assert TokenOk(syn, rest, i - 1);
      assert toks[i] == rest[i - 1];
      assert i + 1 < |toks| ==> toks[i + 1] == rest[i];
    }
  }

  lemma WellFormedTail(syn: TagSyntax, toks: seq<Token>)
    requires WellFormed(syn, toks) && |toks| > 0
    ensures WellFormed(syn, toks[1..])
  {
    var rest := toks[1..];
    forall i | 0 <= i < |rest| ensures TokenOk(syn, rest, i) {
      assert TokenOk(syn, toks, i + 1);
    }
  }

  lemma RenderHead(toks: seq<Token>)
    requires |toks| > 0
    ensures |Render(toks)| > 0 && Render(toks)[0] == Lead(toks[0])
  {
  }

  lemma RenderCons(t: Token, rest: seq<Token>)
    ensures Render([t] + rest) == TokenText(t) + Render(rest)
  {
    assert ([t] + rest)[1..] == rest;
  }

  /** Putting a token in front of the tokens of `tail` yields the tokens of `s`. */
  lemma LexStep(syn: TagSyntax, s: string, t: Token, tail: string, rest: seq<Token>)
    requires s == TokenText(t) + tail
    requires Render(rest) == tail && WellFormed(syn, rest)
    requires |tail| > 0 ==> |rest| > 0 && Lead(rest[0]) == tail[0]
    requires t.Tag? ==> ValidBody(syn, t.body)
    requires t.Tag? || t.c == '#' ==> |tail| == 0 || !IsTagChar(syn, tail[0])
    ensures Render([t] + rest) == s
    ensures WellFormed(syn, [t] + rest)
    ensures Lead(([t] + rest)[0]) == s[0]
  {
    RenderCons(t, rest);
    assert TokenOk(syn, [t] + rest, 0);
    WellFormedCons(syn, t, rest);
  }

  /** The tokens of `s`, scanning left to right exactly as the global regular expression does. */
  function Lex(syn: TagSyntax, s: string): (toks: seq<Token>)
    ensures Render(toks) == s
    ensures WellFormed(syn, toks)
    ensures |s| > 0 ==> |toks| > 0 && Lead(toks[0]) == s[0]
    decreases |s|
  {
    if |s| == 0 then []
    else if StartsTag(syn, s) then
      var n := RunLength(syn, s[1..]);
      var body := s[1..1 + n];
      var tail := s[1 + n..];
      assert s == "#" + body + tail;
      assert ValidBody(syn, body) by {
        forall k | 0 <= k < |body| ensures IsTagChar(syn, body[k]) {
          assert body[k] == s[1..][k];
        }
      }
      assert |tail| > 0 ==> tail[0] == s[1..][n];
      LexStep(syn, s, Tag(body), tail, Lex(syn, tail));
      [Tag(body)] + Lex(syn, tail)
    else
      LexStep(syn, s, Chr(s[0]), s[1..], Lex(syn, s[1..]));
      [Chr(s[0])] + Lex(syn, s[1..])
  }

  /**
   * The tokenization is the only well-formed one: any cut of `s` into tokens
   * that respects the regular expression is the one `Lex` produces.
   */
  lemma LexTagFront(syn: TagSyntax, body: string, tail: string)
    requires ValidBody(syn, body)
    requires |tail| > 0 ==> !IsTagChar(syn, tail[0])
    ensures Lex(syn, "#" + body + tail) == [Tag(body)] + Lex(syn, tail)
  {
    var s := "#" + body + tail;
    assert s[1..] == body + tail;
    RunLengthOf(syn, body, tail);
    assert StartsTag(syn, s);
    assert s[1..1 + |body|] == body;
    assert s[1 + |body|..] == tail;
  }

  lemma LexChrFront(syn: TagSyntax, c: char, tail: string)
    requires c == '#' ==> |tail| == 0 || !IsTagChar(syn, tail[0])
    ensures Lex(syn, [c] + tail) == [Chr(c)] + Lex(syn, tail)
  {
    var s := [c] + tail;
    assert !StartsTag(syn, s);
    assert s[1..] == tail;
  }

  lemma {:induction false} LexUnique(syn: TagSyntax, toks: seq<Token>, s: string)
    requires WellFormed(syn, toks) && Render(toks) == s
    ensures toks == Lex(syn, s)
    decreases |toks|
  {
    if |toks| > 0 {
      var t, rest := toks[0], toks[1..];
      assert toks == [t] + rest;
      RenderCons(t, rest);
      WellFormedTail(syn, toks);
      assert TokenOk(syn, toks, 0);
      if |rest| > 0 {
        RenderHead(rest);
      }
      LexUnique(syn, rest, Render(rest));
      match t
      case Tag(body) =>
        LexTagFront(syn, body, Render(rest));
      case Chr(c) =>
        LexChrFront(syn, c, Render(rest));
    }
  }

  /** The bodies of the matches, in text order, duplicates included. */
  function Tags(toks: seq<Token>): seq<string> {
    if |toks| == 0 then []
    else (match toks[0] case Tag(body) => [body] case Chr(_) => []) + Tags(toks[1..])
  }

  /** What `text.match(regex)` returns, each match with its leading `#` removed. */
  function Matches(syn: TagSyntax, s: string): seq<string> {
    Tags(Lex(syn, s))
  }

  lemma {:induction false} TagsAreValid(syn: TagSyntax, toks: seq<Token>)
    requires WellFormed(syn, toks)
    ensures forall m :: m in Tags(toks) ==> ValidBody(syn, m)
    decreases |toks|
  {
    if |toks| > 0 {
      assert TokenOk(syn, toks, 0);
      WellFormedTail(syn, toks);
      TagsAreValid(syn, toks[1..]);
    }
  }

  /** Every match body is non-empty and made of class characters only. */
  lemma MatchesAreValid(syn: TagSyntax, s: string)
    ensures forall m :: m in Matches(syn, s) ==> ValidBody(syn, m)
  {
    TagsAreValid(syn, Lex(syn, s));
  }

  /** Text without a `#` has no match. */
  lemma {:induction false} NoHashNoMatches(syn: TagSyntax, s: string)
    ensures '#' !in s ==> Matches(syn, s) == []
    decreases |s|
  {
    if |s| > 0 && '#' !in s {
      assert !StartsTag(syn, s);
      assert '#' !in s[1..] by {
        forall k | 0 <= k < |s[1..]| ensures s[1..][k] != '#' {
          assert s[1..][k] == s[k + 1];
        }
      }
      NoHashNoMatches(syn, s[1..]);
    }
  }

  lemma {:induction false} RenderAppend(a: seq<Token>, b: seq<Token>)
    ensures Render(a + b) == Render(a) + Render(b)
    decreases |a|
  {
    if |a| == 0 {
      assert a + b == b;
    } else {
      assert (a + b)[1..] == a[1..] + b;
      RenderAppend(a[1..], b);
    }
  }

  /**
   * `s` holds a complete match with body `body` at offset `p`: a `#`, then the
   * body verbatim, then either the end of the text or a non-class character.
   */
  predicate MatchAt(syn: TagSyntax, s: string, p: int, body: string) {
    && 0 <= p && p + 1 + |body| <= |s|
    && s[p] == '#'
    && s[p + 1..p + 1 + |body|] == body
    && (p + 1 + |body| < |s| ==> !IsTagChar(syn, s[p + 1 + |body|]))
  }

  lemma RenderAround(toks: seq<Token>, i: int)
    requires 0 <= i < |toks|
    ensures Render(toks) == Render(toks[..i]) + (TokenText(toks[i]) + Render(toks[i + 1..]))
  {
    assert toks == toks[..i] + toks[i..];
    RenderAppend(toks[..i], toks[i..]);
    assert toks[i..][1..] == toks[i + 1..];
  }

  lemma HashAt(a: string, body: string, b: string)
    ensures var s := a + (("#" + body) + b);
            && s[|a|] == '#'
            && s[|a| + 1..|a| + 1 + |body|] == body
            && (|b| > 0 ==> s[|a| + 1 + |body|] == b[0])
  {
  }

  lemma TagPosition(syn: TagSyntax, toks: seq<Token>, i: int)
    requires WellFormed(syn, toks)
    requires 0 <= i < |toks| && toks[i].Tag?
    ensures MatchAt(syn, Render(toks), |Render(toks[..i])|, toks[i].body)
  {
    var body := toks[i].body;
    var after := toks[i + 1..];
    RenderAround(toks, i);
    HashAt(Render(toks[..i]), body, Render(after));
    assert TokenOk(syn, toks, i);
    if |after| > 0 {
      RenderHead(after);
    }
  }

  /**
   * Where each match sits in the text: a `Tag` token at index `i` begins at the
   * offset its predecessors cover, that offset holds `#`, the body follows it
   * verbatim, and the character after the body (if any) is not a class character.
   */
  lemma MatchPosition(syn: TagSyntax, s: string, i: int)
    requires 0 <= i < |Lex(syn, s)| && Lex(syn, s)[i].Tag?
    ensures MatchAt(syn, s, |Render(Lex(syn, s)[..i])|, Lex(syn, s)[i].body)
  {
    var toks := Lex(syn, s);
    assert Render(toks) == s && WellFormed(syn, toks);
    TagPosition(syn, toks, i);
  }
}
