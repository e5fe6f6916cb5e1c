/** The image path's reply cleanup (functions/index.js, lines 55-60): the
    reply is trimmed; three independent checks then drop a leading "```json",
    then a leading "```", then a trailing "```"; the result is trimmed again
    and handed to `JSON.parse`. */
module ImageFence {
  import opened Text
  import opened Fences

  /** Line 56: a leading "```json" is cut off with `substring(7)`. */
  function DropJsonOpening(c: string): (r: string)
    ensures StartsWith(c, JsonFence) ==> c == JsonFence + r
    ensures !StartsWith(c, JsonFence) ==> r == c
  {
    if StartsWith(c, JsonFence) then
      assert c == c[..7] + c[7..];
      SubstringFrom(c, 7)
    else c
  }

  /** Line 57: a leading "```" is cut off with `substring(3)`. */
  function DropOpening(c: string): (r: string)
    ensures StartsWith(c, Fence) ==> c == Fence + r
    ensures !StartsWith(c, Fence) ==> r == c
  {
    if StartsWith(c, Fence) then
      assert c == c[..3] + c[3..];
      SubstringFrom(c, 3)
    else c
  }

  /** Line 58: a trailing "```" is cut off with `substring(0, length - 3)`;
      `endsWith` guarantees the length is at least 3, so the arguments are in
      range and the call is an exact slice. */
  function DropClosing(c: string): (r: string)
    ensures EndsWith(c, Fence) ==> c == r + Fence
    ensures !EndsWith(c, Fence) ==> r == c
  {
    if EndsWith(c, Fence) then
      assert c == c[..|c| - 3] + c[|c| - 3..];
      Substring(c, 0, |c| - 3)
    else c
  }

  /** Lines 56-58 applied to already trimmed content, in source order. */
  function ImageBody(content: string): (r: string)
    ensures |r| <= |content|
  {
    DropClosing(DropOpening(DropJsonOpening(content)))
  }

  /** Lines 55-60: the text `JSON.parse` receives on the image path. */
  function StripImageFence(reply: string): (r: string)
    ensures Trimmed(r)
    ensures |r| <= |Trim(reply)|
  {
    Trim(ImageBody(Trim(reply)))
  }

  /** On a reply that is already trimmed, the image path is the fence
      checks followed by a trim. */
  lemma ImageOnTrimmed(reply: string)
    requires Trimmed(reply)
    ensures StripImageFence(reply) == Trim(ImageBody(reply))
  {
    TrimmedIsFixed(reply);
  }

  /** After a "```json" opening, a second opening is cut exactly when a
      fence follows the tag directly. */
  lemma TaggedThenFence(c: string)
    requires StartsWith(c, JsonFence)
    ensures StartsWith(c, JsonFence + Fence) <==> StartsWith(c[7..], Fence)
  {
    if StartsWith(c[7..], Fence) {
      assert c[..10] == c[..7] + c[7..][..3];
    }
    if StartsWith(c, JsonFence + Fence) {
      assert c[7..][..3] == c[7..10];
    }
  }

  /** The two opening checks cut 0, 3, 7 or 10 characters from the front:
      3 or more exactly when a fence opens the content, 7 or more exactly
      when "```json" does, 10 exactly when "```json```" does. */
  lemma OpeningCut(c: string) returns (lead: nat)
    ensures lead in {0, 3, 7, 10} && lead <= |c|
    ensures DropOpening(DropJsonOpening(c)) == c[lead..]
    ensures lead == 0 <==> !StartsWith(c, Fence)
    ensures lead >= 7 <==> StartsWith(c, JsonFence)
    ensures lead == 10 <==> StartsWith(c, JsonFence + Fence)
  {
    var c1 := DropJsonOpening(c);
    var c2 := DropOpening(c1);
    lead := |c| - |c2|;
    assert c2 == c[lead..];
    if StartsWith(c, JsonFence) {
      TaggedStartsWithFence(c);
      assert c1 == c[7..];
      TaggedThenFence(c);
    } else {
      DoubleOpeningIsTagged(c);
    }
  }

  /** The closing check cuts 0 or 3 characters from the back, 3 exactly
      when a fence ends the text. */
  lemma ClosingCut(rest: string) returns (trail: nat)
    ensures trail in {0, 3} && trail <= |rest|
    ensures DropClosing(rest) == rest[..|rest| - trail]
    ensures trail == 3 <==> EndsWith(rest, Fence)
  {
    trail := if EndsWith(rest, Fence) then 3 else 0;
    ClosingOf(rest);
  }

  lemma SliceOfSuffix(c: string, lead: nat, trail: nat)
    requires lead + trail <= |c|
    ensures c[lead..][..|c| - lead - trail] == c[lead..|c| - trail]
  {
  }

  /** The fence checks cut a contiguous slice out of the content: 0, 3, 7 or
      10 characters from the front (10 exactly when "```json" is directly
      followed by "```") and 0 or 3 from the back (3 exactly when what is left
      after the front cuts still ends with "```"), never more. */
  lemma ImageBodySlice(c: string) returns (lead: nat, trail: nat)
    ensures lead in {0, 3, 7, 10} && trail in {0, 3}
    ensures lead + trail <= |c|
    ensures ImageBody(c) == c[lead..|c| - trail]
    ensures lead == 0 <==> !StartsWith(c, Fence)
    ensures lead >= 7 <==> StartsWith(c, JsonFence)
    ensures lead == 10 <==> StartsWith(c, JsonFence + Fence)
    ensures trail == 3 <==> EndsWith(c[lead..], Fence)
  {
    lead := OpeningCut(c);
    trail := ClosingCut(c[lead..]);
    SliceOfSuffix(c, lead, trail);
  }

  /** A reply that, once trimmed, neither starts nor ends with a fence
      reaches `JSON.parse` as the trimmed reply. */
  lemma ImageUnfencedIsTrim(reply: string)
    requires !StartsWith(Trim(reply), Fence) && !EndsWith(Trim(reply), Fence)
    ensures StripImageFence(reply) == Trim(reply)
  {
    TaggedStartsWithFence(Trim(reply));
    TrimIdempotent(reply);
  }

  /** The fence checks undo the wrapping of a body in ```json ... ```,
      provided the body does not itself start with a backtick. */
  lemma ImageBodyOfFenced(body: string)
    requires body == [] || body[0] != '`'
    ensures ImageBody(JsonFence + body + Fence) == body
  {
    var fenced := JsonFence + body + Fence;
    assert fenced[..7] == JsonFence;
    assert fenced[7..] == body + Fence;
    if body == [] {
      assert DropOpening(body + Fence) == [];
    } else {
      assert (body + Fence)[0] == body[0];
      assert (body + Fence)[|body + Fence| - 3..] == Fence;
    }
  }

  /** The intended case: a reply fenced as ```json ... ``` (whitespace
      around it allowed) yields the trimmed body, provided the body does not
      itself start with a backtick. */
  lemma ImageFencedRoundTrip(before: string, body: string, after: string)
    requires AllWhitespace(before) && AllWhitespace(after)
    requires body == [] || body[0] != '`'
    ensures StripImageFence(before + JsonFence + body + Fence + after) == Trim(body)
  {
    FencedBlockTrim(before, body, after);
    ImageBodyOfFenced(body);
  }

  /** The closing check on what the opening checks left. */
  lemma ClosingOf(rest: string)
    ensures DropClosing(rest)
         == if EndsWith(rest, Fence) then rest[..|rest| - 3] else rest
  {
    if EndsWith(rest, Fence) {
      var r := DropClosing(rest);
      assert rest[..|rest| - 3] == (r + Fence)[..|r|];
    }
  }

  /** "```json```" at the front of the content loses both openings. */
  lemma BodyOfDoubleOpening(rest: string)
    ensures ImageBody(JsonFence + Fence + rest)
         == if EndsWith(rest, Fence) then rest[..|rest| - 3] else rest
  {
    var c := JsonFence + Fence + rest;
    var c1 := DropJsonOpening(c);
    assert c[..7] == JsonFence;
    assert c1 == (JsonFence + c1)[7..] == c[7..] == Fence + rest;
    var c2 := DropOpening(c1);
    assert c1[..3] == Fence;
    assert c2 == (Fence + c2)[3..] == c1[3..] == rest;
    ClosingOf(rest);
  }

  /** An untagged "```" at the front of the content is dropped alone. */
  lemma BodyOfBareOpening(rest: string)
    requires !StartsWith(rest, "json")
    ensures ImageBody(Fence + rest)
         == if EndsWith(rest, Fence) then rest[..|rest| - 3] else rest
  {
    var c := Fence + rest;
    FenceThenTag(rest, "json");
    assert JsonFence == Fence + "json";
    assert DropJsonOpening(c) == c;
    var c2 := DropOpening(c);
    assert c[..3] == Fence;
    assert c2 == (Fence + c2)[3..] == c[3..] == rest;
    ClosingOf(rest);
  }

  /** Because the checks run in sequence, "```json```" at the front loses
      both the tagged and the bare opening; only then is one closing fence
      looked for. */
  lemma ImageDoubleOpening(reply: string, rest: string)
    requires Trim(reply) == JsonFence + Fence + rest
    ensures StripImageFence(reply)
         == Trim(if EndsWith(rest, Fence) then rest[..|rest| - 3] else rest)
  {
    BodyOfDoubleOpening(rest);
  }

  /** An untagged "```" opening is dropped as well; then one closing fence
      is looked for. */
  lemma ImageBareOpening(reply: string, rest: string)
    requires Trim(reply) == Fence + rest
    requires !StartsWith(rest, "json")
    ensures StripImageFence(reply)
         == Trim(if EndsWith(rest, Fence) then rest[..|rest| - 3] else rest)
  {
    BodyOfBareOpening(rest);
  }

  /** Only one closing fence is removed: a reply ending in two fences keeps
      the second-to-last one, which then reaches `JSON.parse`. */
  lemma ImageClosingOnce(reply: string, rest: string)
    requires Trim(reply) == rest + Fence + Fence
    requires !StartsWith(Trim(reply), Fence)
    ensures StripImageFence(reply) == Trim(rest + Fence)
    ensures EndsWith(StripImageFence(reply), Fence)
  {
    var c := Trim(reply);
    TaggedStartsWithFence(c);
    assert c[|c| - 3..] == Fence;
    assert c[..|c| - 3] == rest + Fence;
    var kept := rest + Fence;
    assert kept[|kept| - 3..] == Fence;
    TrimKeepsSuffix(kept, Fence);
  }

  /** A "```json" opening with no second fence directly after it is dropped
      alone. */
  lemma BodyOfTaggedOpening(x: string)
    requires !StartsWith(x, Fence)
    ensures ImageBody(JsonFence + x)
         == if EndsWith(x, Fence) then x[..|x| - 3] else x
  {
    var c := JsonFence + x;
    var c1 := DropJsonOpening(c);
    assert c[..7] == JsonFence;
    assert c1 == (JsonFence + c1)[7..] == c[7..] == x;
    ClosingOf(x);
  }

  /** Of two closing fences, the closing check takes only the last. */
  lemma OneOfTwoClosings(rest: string)
    ensures EndsWith(rest + Fence + Fence, Fence)
    ensures (rest + Fence + Fence)[..|rest| + 3] == rest + Fence
  {
    var x := rest + Fence + Fence;
    assert x[|x| - 3..] == Fence;
  }

  /** A fence at the end of the text survives the final trim. */
  lemma ClosingSurvivesTrim(rest: string)
    ensures EndsWith(Trim(rest + Fence), Fence)
  {
    var kept := rest + Fence;
    assert kept[|kept| - 3..] == Fence;
    TrimKeepsSuffix(kept, Fence);
  }

  /** Two closing fences after a "```json" opening: the opening goes, one
      closing fence goes, and the other reaches `JSON.parse`, unless a fence
      follows the tag directly and is taken as a second opening. */
  lemma ImageTaggedClosingOnce(reply: string, rest: string)
    requires Trim(reply) == JsonFence + rest + Fence + Fence
    requires !StartsWith(rest + Fence + Fence, Fence)
    ensures StripImageFence(reply) == Trim(rest + Fence)
    ensures EndsWith(StripImageFence(reply), Fence)
  {
    TaggedTwoClosingsBody(rest);
    ClosingSurvivesTrim(rest);
  }

  lemma TaggedTwoClosingsBody(rest: string)
    requires !StartsWith(rest + Fence + Fence, Fence)
    ensures ImageBody(JsonFence + rest + Fence + Fence) == rest + Fence
  {
    var x := rest + Fence + Fence;
    assert JsonFence + rest + Fence + Fence == JsonFence + x;
    BodyOfTaggedOpening(x);
    OneOfTwoClosings(rest);
  }

  /** An untagged fence opening never reads as "json" when the closing
      fences follow it. */
  lemma NoTagBeforeClosings(rest: string)
    requires !StartsWith(rest, "json")
    ensures !StartsWith(rest + Fence + Fence, "json")
  {
    var x := rest + Fence + Fence;
    if |rest| < 4 {
      assert x[|rest|] == '`' != "json"[|rest|];
    } else {
      assert x[..4] == rest[..4];
    }
  }

  /** Two closing fences after an untagged "```" opening: the opening goes,
      one closing fence goes, and the other reaches `JSON.parse`. */
  lemma ImageBareClosingOnce(reply: string, rest: string)
    requires Trim(reply) == Fence + rest + Fence + Fence
    requires !StartsWith(rest, "json")
    ensures StripImageFence(reply) == Trim(rest + Fence)
    ensures EndsWith(StripImageFence(reply), Fence)
  {
    BareTwoClosingsBody(rest);
    ClosingSurvivesTrim(rest);
  }

  lemma BareTwoClosingsBody(rest: string)
    requires !StartsWith(rest, "json")
    ensures ImageBody(Fence + rest + Fence + Fence) == rest + Fence
  {
    var x := rest + Fence + Fence;
    assert Fence + rest + Fence + Fence == Fence + x;
    NoTagBeforeClosings(rest);
    BodyOfBareOpening(x);
    OneOfTwoClosings(rest);
  }
}
