/** The markdown code-fence markers a language model wraps its JSON reply in,
    and the predicates that say where they occur in a string. */
module Fences {
  import opened Text

  /** The bare fence, three backticks. */
  const Fence: string := "```"
  /** An opening fence tagged with the language `json`. */
  const JsonFence: string := "```json"
  /** The audio path's pattern also accepts the tag with its `n` missing. */
  const JsoFence: string := "```jso"

  predicate IsFenceToken(t: string) {
    t == Fence || t == JsoFence || t == JsonFence
  }

  /** Three backticks start at position `i` of `s`. */
  predicate FenceAt(s: string, i: int) {
    0 <= i && i + 3 <= |s| && s[i..i + 3] == Fence
  }

  lemma FenceAtStart(s: string)
    ensures FenceAt(s, 0) <==> StartsWith(s, Fence)
  {
  }

  predicate ContainsFence(s: string) {
    exists i :: 0 <= i < |s| && FenceAt(s, i)
  }

  predicate NoBacktick(s: string) {
    forall i :: 0 <= i < |s| ==> s[i] != '`'
  }

  /** A string with no three backticks in a row keeps that property in every
      slice. */
  lemma FenceFreeSlice(s: string, lo: nat, hi: nat)
    requires lo <= hi <= |s|
    requires !ContainsFence(s)
    ensures !ContainsFence(s[lo..hi])
  {
    var t := s[lo..hi];
    forall i | 0 <= i < |t|
      ensures !FenceAt(t, i)
    {
      assert !FenceAt(s, lo + i);
      if i + 3 <= |t| {
        assert t[i] == s[lo + i] && t[i + 1] == s[lo + i + 1] && t[i + 2] == s[lo + i + 2];
        assert t[i..i + 3] == s[lo + i..lo + i + 3];
      }
    }
  }

  /** Trimming cannot create three backticks in a row. */
  lemma TrimKeepsFenceFree(s: string)
    requires !ContainsFence(s)
    ensures !ContainsFence(Trim(s))
  {
    var lo, hi := TrimSlice(s);
    FenceFreeSlice(s, lo, hi);
  }

  /** A block fenced as ```json ... ``` starts and ends with a backtick,
      so `trim` leaves it alone, and the whitespace around it is all that
      `trim` removes. */
  lemma FencedBlockTrim(before: string, body: string, after: string)
    requires AllWhitespace(before) && AllWhitespace(after)
    ensures Trim(before + JsonFence + body + Fence + after) == JsonFence + body + Fence
  {
    var fenced := JsonFence + body + Fence;
    assert fenced[0] == '`' && fenced[|fenced| - 1] == '`';
    VisibleEndsTrimmed(fenced);
    Regroup(before, JsonFence, body, Fence, after);
    TrimPadded(before, fenced, after);
  }

  /** A "```json" opening is in particular a bare fence. */
  lemma TaggedStartsWithFence(c: string)
    ensures StartsWith(c, JsonFence) ==> StartsWith(c, Fence)
  {
    if StartsWith(c, JsonFence) {
      assert c[..3] == JsonFence[..3];
    }
  }

  lemma DoubleOpeningIsTagged(c: string)
    ensures StartsWith(c, JsonFence + Fence) ==> StartsWith(c, JsonFence)
  {
    if StartsWith(c, JsonFence + Fence) {
      assert c[..7] == (JsonFence + Fence)[..7];
    }
  }

  /** A bare fence followed by `rest` opens with the fence tagged `tag`
      exactly when `rest` starts with `tag`. */
  lemma FenceThenTag(rest: string, tag: string)
    ensures StartsWith(Fence + rest, Fence + tag) <==> StartsWith(rest, tag)
  {
    var c := Fence + rest;
    if StartsWith(c, Fence + tag) {
      assert rest[..|tag|] == c[3..3 + |tag|] == (Fence + tag)[3..];
    }
    if StartsWith(rest, tag) {
      assert c[..3 + |tag|] == Fence + rest[..|tag|];
    }
  }
}
