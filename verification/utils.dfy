/** src/lib/utils.ts: the second front-end's hashtag, image and rendering helpers. */
module Utils {
  import opened Common
  import opened Seqs
  import opened HashtagLexer
  import opened ImageFiles

  const MaxHashtags := 10

  /**
   * `extractHashtags`: the distinct match bodies in order of first occurrence,
   * cut to the first ten.
   */
  function ExtractHashtags(text: string): (tags: seq<string>)
    ensures |tags| <= MaxHashtags
    ensures Distinct(tags)
    ensures forall t :: t in tags ==> t in Matches(LetterOrNumber, text) && ValidBody(LetterOrNumber, t)
    ensures forall i, j :: 0 <= i < j < |tags| ==>
      FirstIndex(Matches(LetterOrNumber, text), tags[i]) < FirstIndex(Matches(LetterOrNumber, text), tags[j])
    ensures |tags| < MaxHashtags ==> forall m :: m in Matches(LetterOrNumber, text) ==> m in tags
    ensures forall i, m :: 0 <= i < |tags| && m in Matches(LetterOrNumber, text) && m !in tags ==>
      FirstIndex(Matches(LetterOrNumber, text), tags[i]) < FirstIndex(Matches(LetterOrNumber, text), m)
    ensures '#' !in text ==> tags == []
  {
    var ms := Matches(LetterOrNumber, text);
    MatchesAreValid(LetterOrNumber, text);
    NoHashNoMatches(LetterOrNumber, text);
    TakeKeepsEarliest(ms, MaxHashtags);
    Take(Dedup(ms), MaxHashtags)
  }

  /** Cutting the deduplicated list keeps exactly the tags that occur first. */
  lemma TakeKeepsEarliest(ms: seq<string>, n: nat)
    ensures var tags := Take(Dedup(ms), n);
      && (|tags| < n ==> forall m :: m in ms ==> m in tags)
      && forall i, m :: 0 <= i < |tags| && m in ms && m !in tags ==> FirstIndex(ms, tags[i]) < FirstIndex(ms, m)
  {
    var d := Dedup(ms);
    var tags := Take(d, n);
    forall i, m | 0 <= i < |tags| && m in ms && m !in tags
      ensures FirstIndex(ms, tags[i]) < FirstIndex(ms, m)
    {
      assert m in d;
      var k :| 0 <= k < |d| && d[k] == m;
      assert tags[i] == d[i];
    }
  }

  const TypeError := "Only JPG, PNG, and GIF files are allowed"
  const SizeError := "File size must be less than 5MB"

  /** `validateImageFile`. */
  function ValidateImageFile(file: File): (v: Verdict)
    ensures v.Valid? <==> IsAllowedType(file.mimeType) && file.size <= 5242880
    ensures !IsAllowedType(file.mimeType) ==> v == Invalid(TypeError)
    ensures IsAllowedType(file.mimeType) && file.size > 5242880 ==> v == Invalid(SizeError)
  {
    CheckImage(file, MaxImageBytes, TypeError, SizeError)
  }

  /**
   * One entry of the array `renderTextWithHashtags` returns. The source returns
   * bare strings; the model records which entries came from a match.
   */
  datatype Part = Plain(text: string) | Hashtag(text: string)

  /** The text the parts display, in order. */
  function Join(parts: seq<Part>): string {
    if |parts| == 0 then "" else parts[0].text + Join(parts[1..])
  }

  /** The texts of the hashtag parts, in order. */
  function HashtagTexts(parts: seq<Part>): seq<string> {
    if |parts| == 0 then []
    else (if parts[0].Hashtag? then [parts[0].text] else []) + HashtagTexts(parts[1..])
  }

  /** Each body with its `#` put back: the full text of every match. */
  function WithHash(bodies: seq<string>): (r: seq<string>)
    ensures |r| == |bodies|
    ensures forall k :: 0 <= k < |r| ==> r[k] == "#" + bodies[k]
  {
    if |bodies| == 0 then [] else ["#" + bodies[0]] + WithHash(bodies[1..])
  }

  predicate NoEmptyPlain(parts: seq<Part>) {
    forall i :: 0 <= i < |parts| && parts[i].Plain? ==> |parts[i].text| > 0
  }

  /** Plain text between two matches is emitted as one part, never split. */
  predicate NoAdjacentPlain(parts: seq<Part>) {
    forall i :: 0 <= i < |parts| - 1 ==> !(parts[i].Plain? && parts[i + 1].Plain?)
  }

  lemma JoinCons(p: Part, rest: seq<Part>)
    ensures Join([p] + rest) == p.text + Join(rest)
    ensures HashtagTexts([p] + rest) == (if p.Hashtag? then [p.text] else []) + HashtagTexts(rest)
  {
    assert ([p] + rest)[1..] == rest;
  }

  lemma TagsCons(t: Token, rest: seq<Token>)
    ensures Tags([t] + rest) == (match t case Tag(body) => [body] case Chr(_) => []) + Tags(rest)
  {
    assert ([t] + rest)[1..] == rest;
  }

  /**
   * The loop of `renderTextWithHashtags` from some point on: `pending` is the
   * plain text read since the last match, `toks` what is still to scan.
   */
  function PartsFrom(toks: seq<Token>, pending: string): seq<Part>
    decreases |toks|
  {
    if |toks| == 0 then
      if |pending| > 0 then [Plain(pending)] else []
    else
      match toks[0]
      case Chr(c) =>
        PartsFrom(toks[1..], pending + [c])
      case Tag(body) =>
        (if |pending| > 0 then [Plain(pending)] else []) + ([Hashtag("#" + body)] + PartsFrom(toks[1..], ""))
  }

  lemma JoinTagStep(pending: string, body: string, tail: seq<Part>)
    ensures Join((if |pending| > 0 then [Plain(pending)] else []) + ([Hashtag("#" + body)] + tail))
         == pending + (("#" + body) + Join(tail))
  {
    var here := [Hashtag("#" + body)] + tail;
    JoinCons(Hashtag("#" + body), tail);
    if |pending| > 0 {
      JoinCons(Plain(pending), here);
    } else {
      assert [] + here == here;
    }
  }

  /** The parts spell out the pending text followed by the rest of the input. */
  lemma {:induction false} PartsFromJoin(toks: seq<Token>, pending: string)
    ensures Join(PartsFrom(toks, pending)) == pending + Render(toks)
    decreases |toks|
  {
    if |toks| > 0 {
      var rest := toks[1..];
      assert toks == [toks[0]] + rest;
      RenderCons(toks[0], rest);
      match toks[0]
      case Chr(c) =>
        PartsFromJoin(rest, pending + [c]);
        assert pending + [c] + Render(rest) == pending + ([c] + Render(rest));
      case Tag(body) =>
        PartsFromJoin(rest, "");
        JoinTagStep(pending, body, PartsFrom(rest, ""));
    }
  }

  /** The hashtag parts are the matches still to scan, in order, with their `#`. */
  lemma {:induction false} PartsFromHashtags(toks: seq<Token>, pending: string)
    ensures HashtagTexts(PartsFrom(toks, pending)) == WithHash(Tags(toks))
    decreases |toks|
  {
    if |toks| > 0 {
      var rest := toks[1..];
      assert toks == [toks[0]] + rest;
      TagsCons(toks[0], rest);
      match toks[0]
      case Chr(c) =>
        PartsFromHashtags(rest, pending + [c]);
      case Tag(body) =>
        var tail := PartsFrom(rest, "");
        var here := [Hashtag("#" + body)] + tail;
        PartsFromHashtags(rest, "");
        JoinCons(Hashtag("#" + body), tail);
        if |pending| > 0 {
          JoinCons(Plain(pending), here);
          assert PartsFrom(toks, pending) == [Plain(pending)] + here;
        } else {
          assert PartsFrom(toks, pending) == here;
        }
        assert WithHash(Tags(toks)) == ["#" + body] + WithHash(Tags(rest));
    }
  }

  /** No plain part is empty, no two plain parts touch, and nothing is emitted only for empty input. */
  lemma {:induction false} PartsFromShape(toks: seq<Token>, pending: string)
    ensures NoEmptyPlain(PartsFrom(toks, pending)) && NoAdjacentPlain(PartsFrom(toks, pending))
    ensures |PartsFrom(toks, pending)| == 0 <==> |pending| == 0 && |toks| == 0
    decreases |toks|
  {
    if |toks| > 0 {
      match toks[0]
      case Chr(c) =>
        PartsFromShape(toks[1..], pending + [c]);
      case Tag(body) =>
        PartsFromShape(toks[1..], "");
    }
  }

  /**
   * `renderTextWithHashtags`: the text cut into plain runs and whole matches
   * (with their `#`), in order; the empty text gives one empty plain part.
   */
  function RenderTextWithHashtags(text: string): (parts: seq<Part>)
    ensures Join(parts) == text
    ensures HashtagTexts(parts) == WithHash(Matches(LetterOrNumber, text))
    ensures text == "" ==> parts == [Plain("")]
    ensures text != "" ==> NoEmptyPlain(parts)
    ensures NoAdjacentPlain(parts)
  {
    var toks := Lex(LetterOrNumber, text);
    var parts := PartsFrom(toks, "");
    PartsFromJoin(toks, "");
    PartsFromHashtags(toks, "");
    PartsFromShape(toks, "");
    if |parts| > 0 then parts
    else
      assert toks == [];
      [Plain(text)]
  }
}
