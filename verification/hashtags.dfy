/** lib/hashtags.ts: hashtag extraction, highlighting and the count check of the root front-end. */
module Hashtags {
  import opened Common
  import opened Seqs
  import opened HashtagLexer

  /** The most hashtags a post may carry. */
  const MaxHashtags := 10

  const TooManyHashtags := "해시태그는 최대 10개까지만 허용됩니다."

  /** The markup `highlightHashtags` puts around every match. */
  const SpanOpen := "<span class=\"hashtag\">"
  const SpanClose := "</span>"

  /**
   * `extractHashtags`: the distinct match bodies in order of first occurrence,
   * with no limit on how many.
   */
  function ExtractHashtags(text: string): (tags: seq<string>)
    ensures Distinct(tags)
    ensures forall t :: t in tags <==> t in Matches(WordOrHangul, text)
    ensures forall i, j :: 0 <= i < j < |tags| ==>
      FirstIndex(Matches(WordOrHangul, text), tags[i]) < FirstIndex(Matches(WordOrHangul, text), tags[j])
    ensures forall t :: t in tags ==> ValidBody(WordOrHangul, t)
    ensures '#' !in text ==> tags == []
  {
    MatchesAreValid(WordOrHangul, text);
    NoHashNoMatches(WordOrHangul, text);
    Dedup(Matches(WordOrHangul, text))
  }

  /** The highlighted form of one match. */
  function Span(body: string): string {
    SpanOpen + "#" + body + SpanClose
  }

  /** Replaces every match by its span and copies every other character. */
  function Wrap(toks: seq<Token>): string {
    if |toks| == 0 then ""
    else
      (match toks[0] case Chr(c) => [c] case Tag(body) => Span(body)) + Wrap(toks[1..])
  }

  /**
   * `highlightHashtags`: every match becomes a hashtag span around the same
   * `#` and body; text with no match, in particular text without `#`, comes
   * back unchanged.
   */
  function HighlightHashtags(text: string): (r: string)
    ensures Matches(WordOrHangul, text) == [] ==> r == text
    ensures '#' !in text ==> r == text
  {
    NoHashNoMatches(WordOrHangul, text);
    WrapPlain(Lex(WordOrHangul, text));
    Wrap(Lex(WordOrHangul, text))
  }

  /** Without matches there is nothing to wrap. */
  lemma {:induction false} WrapPlain(toks: seq<Token>)
    ensures Tags(toks) == [] ==> Wrap(toks) == Render(toks)
    decreases |toks|
  {
    if |toks| > 0 && Tags(toks) == [] {
      WrapPlain(toks[1..]);
    }
  }

  /** Deletes every opening and closing hashtag span from highlighted text. */
  function Unwrap(html: string): string
    decreases |html|
  {
    if |html| == 0 then ""
    else if |SpanOpen| <= |html| && html[..|SpanOpen|] == SpanOpen then Unwrap(html[|SpanOpen|..])
    else if |SpanClose| <= |html| && html[..|SpanClose|] == SpanClose then Unwrap(html[|SpanClose|..])
    else [html[0]] + Unwrap(html[1..])
  }

  /** The position of the first `<` in `s`, or `|s|` when there is none. */
  function FirstMarker(s: string): (k: nat)
    ensures k <= |s|
    ensures '<' !in s[..k]
    ensures k < |s| ==> s[k] == '<'
  {
    if |s| == 0 || s[0] == '<' then 0
    else
      var k := FirstMarker(s[1..]);
      assert s[1..][..k] == s[1..k + 1];
      k + 1
  }

  /**
   * Reads highlighted text left to right and collects the body of every
   * well-formed span `<span class="hashtag">#body</span>`, the body running
   * up to the next `<`.
   */
  function SpanBodies(html: string): seq<string>
    decreases |html|
  {
    if |html| == 0 then []
    else if |SpanOpen| + 1 <= |html| && html[..|SpanOpen| + 1] == SpanOpen + "#" then
      var rest := html[|SpanOpen| + 1..];
      var k := FirstMarker(rest);
      if |SpanClose| <= |rest| - k && rest[k..k + |SpanClose|] == SpanClose then
        [rest[..k]] + SpanBodies(rest[k + |SpanClose|..])
      else SpanBodies(html[1..])
    else SpanBodies(html[1..])
  }

  /** `validateHashtagCount`. */
  function ValidateHashtagCount(hashtags: seq<string>): (v: Verdict)
    ensures v.Valid? <==> |hashtags| <= MaxHashtags
    ensures v.Invalid? ==> v.error == TooManyHashtags
  {
    if |hashtags| > MaxHashtags then Invalid(TooManyHashtags) else Valid
  }

  lemma {:induction false} UnwrapPlain(x: string, y: string)
    requires '<' !in x
    ensures Unwrap(x + y) == x + Unwrap(y)
    decreases |x|
  {
    if |x| > 0 {
      var h := x + y;
      assert h[0] == x[0] != '<';
      assert SpanOpen[0] == '<' && SpanClose[0] == '<';
      assert h[1..] == x[1..] + y;
      assert '<' !in x[1..] by {
        forall k | 0 <= k < |x[1..]| ensures x[1..][k] != '<' {
          assert x[1..][k] == x[k + 1];
        }
      }
      UnwrapPlain(x[1..], y);
    } else {
      assert x + y == y;
    }
  }

  lemma UnwrapOpen(y: string)
    ensures Unwrap(SpanOpen + y) == Unwrap(y)
  {
    var h := SpanOpen + y;
    assert h[..|SpanOpen|] == SpanOpen;
    assert h[|SpanOpen|..] == y;
  }

  lemma UnwrapClose(y: string)
    ensures Unwrap(SpanClose + y) == Unwrap(y)
  {
    var h := SpanClose + y;
    assert h[1] == '/' != SpanOpen[1];
    assert h[..|SpanClose|] == SpanClose;
    assert h[|SpanClose|..] == y;
  }

  lemma UnwrapSpan(body: string, rest: string)
    requires '<' !in body
    ensures Unwrap(Span(body) + rest) == "#" + body + Unwrap(rest)
  {
    var tag := "#" + body;
    assert '<' !in tag;
    assert Span(body) + rest == SpanOpen + (tag + (SpanClose + rest));
    UnwrapOpen(tag + (SpanClose + rest));
    UnwrapPlain(tag, SpanClose + rest);
    UnwrapClose(rest);
  }

  lemma WrapCons(t: Token, rest: seq<Token>)
    ensures Wrap([t] + rest) == (match t case Chr(c) => [c] case Tag(body) => Span(body)) + Wrap(rest)
  {
    assert ([t] + rest)[1..] == rest;
  }

  lemma {:induction false} UnwrapWrap(toks: seq<Token>)
    requires '<' !in Render(toks)
    ensures Unwrap(Wrap(toks)) == Render(toks)
    decreases |toks|
  {
    if |toks| > 0 {
      var t, rest := toks[0], toks[1..];
      assert toks == [t] + rest;
      RenderCons(t, rest);
      WrapCons(t, rest);
      assert '<' !in Render(rest) && '<' !in TokenText(t) by {
        assert forall c :: c in Render(rest) ==> c in Render(toks);
        assert forall c :: c in TokenText(t) ==> c in Render(toks);
      }
      UnwrapWrap(rest);
      match t
      case Chr(c) =>
        UnwrapPlain([c], Wrap(rest));
      case Tag(body) =>
        assert '<' !in body by {
          assert forall c :: c in body ==> c in TokenText(t);
        }
        UnwrapSpan(body, Wrap(rest));
    }
  }

  /**
   * Highlighting only adds markup: for text that contains no `<`, deleting the
   * spans gives the text back unchanged.
   */
  lemma HighlightRoundTrip(text: string)
    requires '<' !in text
    ensures Unwrap(HighlightHashtags(text)) == text
  {
    UnwrapWrap(Lex(WordOrHangul, text));
  }

  lemma {:induction false} SpanBodiesPlain(x: string, y: string)
    requires '<' !in x
    ensures SpanBodies(x + y) == SpanBodies(y)
    decreases |x|
  {
    if |x| > 0 {
      var h := x + y;
      assert h[0] == x[0] != '<';
      assert (SpanOpen + "#")[0] == '<';
      assert h[1..] == x[1..] + y;
      assert '<' !in x[1..] by {
        forall k | 0 <= k < |x[1..]| ensures x[1..][k] != '<' {
          assert x[1..][k] == x[k + 1];
        }
      }
      SpanBodiesPlain(x[1..], y);
    } else {
      assert x + y == y;
    }
  }

  lemma SpanBodiesSpan(body: string, rest: string)
    requires '<' !in body
    ensures SpanBodies(Span(body) + rest) == [body] + SpanBodies(rest)
  {
    var h := Span(body) + rest;
    var tail := body + SpanClose + rest;
    assert h == (SpanOpen + "#") + tail;
    assert h[..|SpanOpen| + 1] == SpanOpen + "#";
    assert h[|SpanOpen| + 1..] == tail;
    var k := FirstMarker(tail);
    assert tail[|body|] == '<';
    assert k == |body|;
    assert tail[..k] == body;
    assert tail[k..k + |SpanClose|] == SpanClose;
    assert tail[k + |SpanClose|..] == rest;
  }

  /** Over text without `<`, the spans of the wrapped tokens carry exactly the match bodies, in order. */
  lemma {:induction false} SpanBodiesWrap(toks: seq<Token>)
    requires '<' !in Render(toks)
    ensures SpanBodies(Wrap(toks)) == Tags(toks)
    decreases |toks|
  {
    if |toks| > 0 {
      var t, rest := toks[0], toks[1..];
      assert toks == [t] + rest;
      RenderCons(t, rest);
      WrapCons(t, rest);
      assert '<' !in Render(rest) && '<' !in TokenText(t) by {
        assert forall c :: c in Render(rest) ==> c in Render(toks);
        assert forall c :: c in TokenText(t) ==> c in Render(toks);
      }
      SpanBodiesWrap(rest);
      assert Tags(toks) == (match t case Tag(body) => [body] case Chr(_) => []) + Tags(rest);
      match t
      case Chr(c) =>
        SpanBodiesPlain([c], Wrap(rest));
      case Tag(body) =>
        assert '<' !in body by {
          assert forall c :: c in body ==> c in TokenText(t);
        }
        SpanBodiesSpan(body, Wrap(rest));
    }
  }

  /**
   * Every match is replaced by a span around that same match: reading the
   * spans of the highlighted text back gives the matches in order, repeats
   * included, so the span bodies are, as a set, the extracted hashtags.
   */
  lemma HighlightSpans(text: string)
    requires '<' !in text
    ensures SpanBodies(HighlightHashtags(text)) == Matches(WordOrHangul, text)
    ensures forall b :: b in SpanBodies(HighlightHashtags(text)) <==> b in ExtractHashtags(text)
    ensures |SpanBodies(HighlightHashtags(text))| == |Matches(WordOrHangul, text)|
  {
    SpanBodiesWrap(Lex(WordOrHangul, text));
  }

  lemma SpanMarkers(body: string)
    ensures multiset(Span(body))['<'] == multiset(body)['<'] + 2
  {
    OpenMarker();
    CloseMarker();
    assert multiset(Span(body)) == multiset(SpanOpen) + multiset("#") + multiset(body) + multiset(SpanClose);
  }

  lemma OpenMarker()
    ensures multiset(SpanOpen)['<'] == 1
  {
    OneMarker(SpanOpen);
  }

  lemma CloseMarker()
    ensures multiset(SpanClose)['<'] == 1
  {
    OneMarker(SpanClose);
  }

  /** A span tag that starts with `<` and has no other `<` in it. */
  lemma OneMarker(tag: string)
    requires |tag| > 0 && tag[0] == '<' && '<' !in tag[1..]
    ensures multiset(tag)['<'] == 1
  {
    assert tag == [tag[0]] + tag[1..];
    assert multiset(tag) == multiset{'<'} + multiset(tag[1..]);
  }

  lemma {:induction false} WrapMarkers(toks: seq<Token>)
    ensures multiset(Wrap(toks))['<'] == multiset(Render(toks))['<'] + 2 * |Tags(toks)|
    decreases |toks|
  {
    if |toks| > 0 {
      var t, rest := toks[0], toks[1..];
      assert toks == [t] + rest;
      RenderCons(t, rest);
      WrapCons(t, rest);
      WrapMarkers(rest);
      match t
      case Chr(c) =>
      case Tag(body) =>
        SpanMarkers(body);
        assert multiset(TokenText(t))['<'] == multiset(body)['<'] by {
          assert multiset(TokenText(t)) == multiset("#") + multiset(body);
        }
    }
  }

  /**
   * Highlighting wraps one span per match, repeated tags included: it adds
   * exactly two `<` characters (one per tag of the span) for every match.
   */
  lemma HighlightSpanCount(text: string)
    ensures multiset(HighlightHashtags(text))['<'] == multiset(text)['<'] + 2 * |Matches(WordOrHangul, text)|
  {
    WrapMarkers(Lex(WordOrHangul, text));
  }
}
