/** The audio path's reply cleanup (functions/index.js, lines 115-118): the
    reply is trimmed; if it then starts with three backticks, every match of
    the global pattern `/```json?|```/` is deleted, anywhere in the text; the
    result is trimmed again and handed to `JSON.parse`. */
module AudioFence {
  import opened Text
  import opened Fences
  import opened Regex

  /** Length of the pattern's match at the start of `s`, 0 when there is
      none: `` ```jso `` with an optional `n`, otherwise `` ``` ``. */
  function FenceMatchLength(s: string): (k: nat)
    ensures k <= |s|
  {
    if |s| >= 3 && s[0] == '`' && s[1] == '`' && s[2] == '`' then
      if |s| >= 6 && s[3] == 'j' && s[4] == 's' && s[5] == 'o' then
        if |s| >= 7 && s[6] == 'n' then 7 else 6
      else 3
    else 0
  }

  /** The match is empty exactly when no fence opens the text, reaches past
      "```jso" exactly when that opens it, takes the `n` exactly when one
      follows, and is always one of the three fence tokens. */
  lemma FenceMatchMeaning(s: string)
    ensures FenceMatchLength(s) == 0 <==> !StartsWith(s, Fence)
    ensures FenceMatchLength(s) >= 6 <==> StartsWith(s, JsoFence)
    ensures FenceMatchLength(s) == 7 <==> StartsWith(s, JsoFence) && StartsWith(s[6..], "n")
    ensures FenceMatchLength(s) > 0 ==> IsFenceToken(s[..FenceMatchLength(s)])
  {
    assert |s| < 3 || s[..3] != Fence || (s[0] == '`' && s[1] == '`' && s[2] == '`') by {
      if |s| >= 3 {
        assert s[..3][0] == s[0] && s[..3][1] == s[1] && s[..3][2] == s[2];
      }
    }
    assert |s| < 6 || s[..6] != JsoFence || (s[..6][..3] == s[..3] && s[3] == 'j' && s[4] == 's' && s[5] == 'o') by {
      if |s| >= 6 {
        assert s[..6][3] == s[3] && s[..6][4] == s[4] && s[..6][5] == s[5];
      }
    }
    assert |s| < 7 || (s[6..][..1] == "n" <==> s[6] == 'n') by {
      if |s| >= 7 {
        assert s[6..][..1][0] == s[6];
      }
    }
    if |s| >= 3 && s[0] == '`' && s[1] == '`' && s[2] == '`' {
      assert s[..3] == Fence;
      if |s| >= 6 && s[3] == 'j' && s[4] == 's' && s[5] == 'o' {
        assert s[..6] == JsoFence;
        if |s| >= 7 && s[6] == 'n' {
          assert s[..7] == JsonFence;
        }
      }
    }
  }

  /** One step of the scan: a character kept, or a fence token deleted. */
  datatype Piece = Kept(c: char) | Deleted(token: string)

  /** The text the pieces were cut from. */
  function Reassemble(ps: seq<Piece>): string {
    if ps == [] then []
    else
      match ps[0]
      case Kept(c) => [c] + Reassemble(ps[1..])
      case Deleted(t) => t + Reassemble(ps[1..])
  }

  /** The characters that survive the deletion. */
  function KeptText(ps: seq<Piece>): string {
    if ps == [] then []
    else
      match ps[0]
      case Kept(c) => [c] + KeptText(ps[1..])
      case Deleted(_) => KeptText(ps[1..])
  }

  predicate OnlyFencesDeleted(ps: seq<Piece>) {
    forall k :: 0 <= k < |ps| && ps[k].Deleted? ==> IsFenceToken(ps[k].token)
  }

  /** The left-to-right scan the global replace performs: at each position
      delete the pattern's match if there is one, otherwise keep the character
      and move one on. The pieces reassemble to the input, so the matches are
      non-overlapping and nothing is reordered. */
  function Scan(s: string): (ps: seq<Piece>)
    ensures Reassemble(ps) == s
    ensures OnlyFencesDeleted(ps)
    decreases |s|
  {
    if s == [] then []
    else
      var k := FenceMatchLength(s);
      FenceMatchMeaning(s);
      if k > 0 then
        var rest := Scan(s[k..]);
        assert s[..k] + s[k..] == s;
        [Deleted(s[..k])] + rest
      else
        var rest := Scan(s[1..]);
        assert [s[0]] + s[1..] == s;
        [Kept(s[0])] + rest
  }

  /** `s.replace(/```json?|```/g, "")`: at each position the pattern's
      match is dropped if there is one, otherwise the character is kept. */
  function DeleteFences(s: string): (r: string)
    ensures |r| <= |s|
    decreases |s|
  {
    if s == [] then []
    else
      var k := FenceMatchLength(s);
      if k > 0 then DeleteFences(s[k..]) else [s[0]] + DeleteFences(s[1..])
  }

  /** The deletion retains exactly the characters the scan keeps. */
  lemma {:induction false} ScanDeletes(s: string)
    ensures KeptText(Scan(s)) == DeleteFences(s)
    decreases |s|
  {
    if s != [] {
      var k := FenceMatchLength(s);
      var ps := Scan(s);
      if k > 0 {
        assert ps[1..] == Scan(s[k..]);
        ScanDeletes(s[k..]);
      } else {
        assert ps[1..] == Scan(s[1..]);
        ScanDeletes(s[1..]);
      }
    }
  }

  /** The result of the global replace is its input with some characters
      left out. */
  lemma DeleteFencesIsSubsequence(s: string)
    ensures IsSubsequence(DeleteFences(s), s)
  {
    var ps := Scan(s);
    KeptIsSubsequence(ps);
    ScanDeletes(s);
  }

  /** `a` is `b` with some characters left out. */
  predicate IsSubsequence(a: string, b: string)
    decreases |b|
  {
    if a == [] then true
    else if b == [] then false
    else if a[0] == b[0] then IsSubsequence(a[1..], b[1..])
    else IsSubsequence(a, b[1..])
  }

  lemma {:induction false} SubsequenceNoLonger(a: string, b: string)
    requires IsSubsequence(a, b)
    ensures |a| <= |b|
    decreases |b|
  {
    if a != [] {
      if a[0] == b[0] {
        SubsequenceNoLonger(a[1..], b[1..]);
      } else {
        SubsequenceNoLonger(a, b[1..]);
      }
    }
  }

  lemma {:induction false} SubsequenceOfLonger(a: string, t: string, b: string)
    requires IsSubsequence(a, b)
    ensures IsSubsequence(a, t + b)
    decreases |t|
  {
    if t != [] {
      var rest := t[1..] + b;
      SubsequenceOfLonger(a, t[1..], b);
      SubsequenceCons(a, t[0], rest);
      assert [t[0]] + rest == t + b;
    } else {
      assert t + b == b;
    }
  }

  lemma {:induction false} SubsequenceCons(a: string, c: char, b: string)
    requires IsSubsequence(a, b)
    ensures IsSubsequence(a, [c] + b)
    decreases |b|, 1
  {
    assert ([c] + b)[1..] == b;
    if a != [] && a[0] == c {
      SubsequenceDropFirst(a, b);
    }
  }

  lemma {:induction false} SubsequenceDropFirst(a: string, b: string)
    requires a != [] && IsSubsequence(a, b)
    ensures IsSubsequence(a[1..], b)
    decreases |b|, 0
  {
    if a[0] != b[0] {
      SubsequenceDropFirst(a, b[1..]);
    }
    SubsequenceCons(a[1..], b[0], b[1..]);
    assert [b[0]] + b[1..] == b;
  }

  lemma {:induction false} KeptIsSubsequence(ps: seq<Piece>)
    ensures IsSubsequence(KeptText(ps), Reassemble(ps))
    decreases |ps|
  {
    if ps != [] {
      KeptIsSubsequence(ps[1..]);
      match ps[0]
      case Kept(c) =>
        assert ([c] + Reassemble(ps[1..]))[1..] == Reassemble(ps[1..]);
        assert ([c] + KeptText(ps[1..]))[1..] == KeptText(ps[1..]);
      case Deleted(t) =>
        SubsequenceOfLonger(KeptText(ps[1..]), t, Reassemble(ps[1..]));
    }
  }

  /** One step of the deletion: a match at the front is dropped, otherwise
      the first character is kept. */
  lemma DeleteFencesStep(s: string)
    requires s != []
    ensures FenceMatchLength(s) > 0 ==>
      DeleteFences(s) == DeleteFences(s[FenceMatchLength(s)..])
    ensures FenceMatchLength(s) == 0 ==>
      DeleteFences(s) == [s[0]] + DeleteFences(s[1..])
  {
  }

  /** A character other than a backtick is always kept. */
  lemma PlainStep(s: string)
    requires s != [] && s[0] != '`'
    ensures DeleteFences(s) == [s[0]] + DeleteFences(s[1..])
  {
    assert |s| < 3 || s[..3] != Fence by {
      if |s| >= 3 {
        assert s[..3][0] == s[0];
      }
    }
    DeleteFencesStep(s);
  }

  /** The deletion step at position `i` of `s`. */
  lemma DeleteFencesStepAt(s: string, i: nat)
    requires i < |s|
    ensures FenceMatchLength(s[i..]) > 0 ==>
      DeleteFences(s[i..]) == DeleteFences(s[i + FenceMatchLength(s[i..])..])
    ensures FenceMatchLength(s[i..]) == 0 ==>
      DeleteFences(s[i..]) == [s[i]] + DeleteFences(s[i + 1..])
  {
    var t := s[i..];
    DeleteFencesStep(t);
    assert t[1..] == s[i + 1..];
    if FenceMatchLength(t) > 0 {
      assert t[FenceMatchLength(t)..] == s[i + FenceMatchLength(t)..];
    }
  }

  /** The bare alternative `` ``` `` matches exactly when three backticks
      follow. */
  lemma BareEnds(s: string, i: nat)
    requires i <= |s|
    ensures Ends(Lit(Fence), s, i) == if StartsWith(s[i..], Fence) then [i + 3] else []
  {
  }

  /** The tagged alternative `` ```json? `` ends after `n` when it follows
      "```jso", else right after "```jso" (the greedy `?` tries `n` first). */
  lemma TaggedEnds(s: string, i: nat)
    requires i <= |s|
    ensures Ends(Then(Lit(JsoFence), Maybe(Lit("n"))), s, i)
         == if !StartsWith(s[i..], JsoFence) then []
            else if StartsWith(s[i + 6..], "n") then [i + 7, i + 6]
            else [i + 6]
  {
    var opt := Maybe(Lit("n"));
    if StartsWith(s[i..], JsoFence) {
      assert Ends(Lit(JsoFence), s, i) == [i + 6];
      assert Ends(opt, s, i + 6) == Ends(Lit("n"), s, i + 6) + [i + 6];
      assert EndsAfter([i + 6], opt, s, i) == Ends(opt, s, i + 6) + EndsAfter([], opt, s, i);
    }
  }

  /** The pattern's ends are the tagged alternative's, then the bare one's. */
  lemma PatternEnds(s: string, i: nat)
    requires i <= |s|
    ensures Ends(FencePattern, s, i)
         == Ends(Then(Lit(JsoFence), Maybe(Lit("n"))), s, i) + Ends(Lit(Fence), s, i)
  {
  }

  /** The scanner's step agrees with the pattern `/```json?|```/` as the
      backtracking matcher reads it, at every position of every string. */
  lemma PatternAgreesWithScanner(s: string, i: nat)
    requires i <= |s|
    ensures FenceMatchLength(s[i..]) > 0 ==>
      MatchFrom(FencePattern, s, i) == Some(i + FenceMatchLength(s[i..]))
    ensures FenceMatchLength(s[i..]) == 0 ==>
      MatchFrom(FencePattern, s, i) == None
  {
    var t := s[i..];
    var k := FenceMatchLength(t);
    var tagged := Ends(Then(Lit(JsoFence), Maybe(Lit("n"))), s, i);
    var bare := Ends(Lit(Fence), s, i);
    PatternEnds(s, i);
    FenceMatchMeaning(t);
    BareEnds(s, i);
    TaggedEnds(s, i);
    if k >= 6 {
      assert t[6..] == s[i + 6..];
      assert tagged[0] == i + k;
    } else if k == 3 {
      assert tagged == [] && bare == [i + 3];
    } else {
      assert tagged == [] && bare == [];
    }
  }

  /** One match attempt of the pattern at position `i`, as `RegExpExec`
      makes it: the first end the backtracking matcher reaches. The
      contract states that end in terms of the scanner's step. */
  method ExecFence(s: string, i: nat) returns (m: Option<nat>)
    requires i <= |s|
    ensures m.Some? <==> FenceMatchLength(s[i..]) > 0
    ensures m.Some? ==> m.value == i + FenceMatchLength(s[i..])
  {
    m := MatchFrom(FencePattern, s, i);
    PatternAgreesWithScanner(s, i);
  }

  /** `replace` with a global pattern as section 22.2.6.11 of ECMA-262 lays
      it out: starting at `lastIndex`, a failed match attempt moves on one
      position; a match appends the text since the previous match and resumes
      after the match; the tail after the last match is appended at the end.
      This imperative reading of the pattern agrees with the recursive scan. */
  method ReplaceAllFences(s: string) returns (out: string)
    ensures out == DeleteFences(s)
  {
    out := [];
    var next: nat := 0;  // first character not yet copied to `out`
    var last: nat := 0;  // where the next match attempt starts
    PendingStart(s);
    while last < |s|
      invariant next <= last <= |s|
      invariant out + Pending(s, next, last) == DeleteFences(s)
      decreases |s| - last
    {
      var m := ExecFence(s, last);
      if m.Some? {
        var copied := out + s[next..last];
        MatchAdvance(s, out, next, last, copied, m.value);
        out := copied;
        next, last := m.value, m.value;
      } else {
        KeepAdvance(s, out, next, last);
        last := last + 1;
      }
    }
    PendingEnd(s, next);
    out := out + s[next..];
  }

  /** What the replace has yet to produce: the text since the previous match,
      followed by the deletion applied to the rest of the input. */
  function Pending(s: string, next: nat, last: nat): string
    requires next <= last <= |s|
  {
    s[next..last] + DeleteFences(s[last..])
  }

  lemma PendingStart(s: string)
    ensures Pending(s, 0, 0) == DeleteFences(s)
  {
    assert s[0..] == s;
  }

  lemma PendingEnd(s: string, next: nat)
    requires next <= |s|
    ensures Pending(s, next, |s|) == s[next..]
  {
    assert s[|s|..] == [];
  }

  lemma AppendAssoc(a: string, b: string, c: string)
    ensures (a + b) + c == a + (b + c)
  {
  }

  /** How a concatenation with a non-empty front splits at its first
      character. */
  lemma ConsSplit(b: string, t: string)
    requires b != []
    ensures (b + t)[0] == b[0] && (b + t)[1..] == b[1..] + t
    ensures [b[0]] + b[1..] == b
  {
  }

  lemma NoBacktickTail(b: string)
    requires b != [] && NoBacktick(b)
    ensures NoBacktick(b[1..])
  {
    var tail := b[1..];
    forall i | 0 <= i < |tail|
      ensures tail[i] != '`'
    {
      assert tail[i] == b[i + 1];
    }
  }

  /** The loop invariant survives skipping a match. */
  lemma {:induction false} MatchAdvance(s: string, out: string, next: nat, last: nat,
                                        copied: string, after: nat)
    requires next <= last < |s|
    requires FenceMatchLength(s[last..]) > 0
    requires after == last + FenceMatchLength(s[last..])
    requires copied == out + s[next..last]
    requires out + Pending(s, next, last) == DeleteFences(s)
    ensures last < after <= |s|
    ensures copied + Pending(s, after, after) == DeleteFences(s)
  {
    MatchStep(s, next, last);
    AppendAssoc(out, s[next..last], Pending(s, after, after));
  }

  /** The loop invariant survives a failed match attempt. */
  lemma KeepAdvance(s: string, out: string, next: nat, last: nat)
    requires next <= last < |s|
    requires FenceMatchLength(s[last..]) == 0
    requires out + Pending(s, next, last) == DeleteFences(s)
    ensures out + Pending(s, next, last + 1) == DeleteFences(s)
  {
    KeepStep(s, next, last);
  }

  /** A match is skipped over: the text since the previous match is copied
      and the replace resumes after the match. */
  lemma MatchStep(s: string, next: nat, last: nat)
    requires next <= last < |s|
    requires FenceMatchLength(s[last..]) > 0
    ensures var after := last + FenceMatchLength(s[last..]);
      after <= |s| && Pending(s, next, last) == s[next..last] + Pending(s, after, after)
  {
    var after := last + FenceMatchLength(s[last..]);
    DeleteFencesStepAt(s, last);
    assert s[after..after] == [];
  }

  /** A failed match attempt moves one character from the pending input to
      the pending copy. */
  lemma KeepStep(s: string, next: nat, last: nat)
    requires next <= last < |s|
    requires FenceMatchLength(s[last..]) == 0
    ensures Pending(s, next, last) == Pending(s, next, last + 1)
  {
    DeleteFencesStepAt(s, last);
    assert s[next..last + 1] == s[next..last] + [s[last]];
    AppendAssoc(s[next..last], [s[last]], DeleteFences(s[last + 1..]));
  }

  predicate TwoBackticks(s: string) {
    |s| >= 2 && s[0] == '`' && s[1] == '`'
  }

  /** Deletion cannot bring two backticks to the front of a string that did
      not start with them. */
  lemma BacktickPairAtFront(s: string)
    ensures TwoBackticks(DeleteFences(s)) ==> TwoBackticks(s)
  {
    if s != [] {
      DeleteFencesStep(s);
      if |s| >= 2 {
        DeleteFencesStep(s[1..]);
        assert s[1..][0] == s[1];
      }
    }
  }

  /** The deletion leaves no three backticks in a row: a kept backtick is
      never followed by a fence token, for then the match would have started
      at the kept backtick itself. */
  lemma {:induction false} DeletedFenceFree(s: string)
    ensures !ContainsFence(DeleteFences(s))
    decreases |s|
  {
    if s != [] {
      DeleteFencesStep(s);
      var k := FenceMatchLength(s);
      if k > 0 {
        DeletedFenceFree(s[k..]);
      } else {
        var rest := DeleteFences(s[1..]);
        DeletedFenceFree(s[1..]);
        BacktickPairAtFront(s[1..]);
        FenceAtStart(s);
        var r := [s[0]] + rest;
        forall i | 0 <= i < |r|
          ensures !FenceAt(r, i)
        {
          if i > 0 {
            if i + 3 <= |r| {
              assert r[i..i + 3] == rest[i - 1..i + 2];
            }
            assert !FenceAt(rest, i - 1);
          } else if |s| >= 3 && |rest| >= 2 {
            assert s[..3] == [s[0], s[1], s[2]];
            assert r[..3] == [s[0], rest[0], rest[1]];
          }
        }
      }
    }
  }

  lemma {:induction false} FenceFreeUntouched(s: string)
    requires !ContainsFence(s)
    ensures DeleteFences(s) == s
    decreases |s|
  {
    if s != [] {
      DeleteFencesStep(s);
      assert !FenceAt(s, 0);
      FenceFreeSlice(s, 1, |s|);
      assert s[1..|s|] == s[1..];
      FenceFreeUntouched(s[1..]);
    }
  }

  lemma {:induction false} FenceShrinks(s: string)
    requires ContainsFence(s)
    ensures |DeleteFences(s)| < |s|
    decreases |s|
  {
    DeleteFencesStep(s);
    var k := FenceMatchLength(s);
    if k == 0 {
      FenceAtStart(s);
      FenceMatchMeaning(s);
      var i :| 0 <= i < |s| && FenceAt(s, i);
      assert i > 0;
      assert s[1..][i - 1..i + 2] == s[i..i + 3];
      assert FenceAt(s[1..], i - 1);
      FenceShrinks(s[1..]);
    }
  }

  /** The deletion changes a string exactly when three backticks occur in
      it somewhere. */
  lemma DeleteFencesIdentityIff(s: string)
    ensures DeleteFences(s) == s <==> !ContainsFence(s)
  {
    if ContainsFence(s) {
      FenceShrinks(s);
    } else {
      FenceFreeUntouched(s);
    }
  }

  /** Text without backticks passes through the deletion unchanged and does
      not affect what happens after it. */
  lemma {:induction false} PlainPrefixKept(b: string, t: string)
    requires NoBacktick(b)
    ensures DeleteFences(b + t) == b + DeleteFences(t)
    decreases |b|
  {
    if b != [] {
      var tail := b[1..];
      ConsSplit(b, t);
      NoBacktickTail(b);
      PlainStep(b + t);
      PlainPrefixKept(tail, t);
      AppendAssoc([b[0]], tail, DeleteFences(t));
    } else {
      assert b + t == t;
    }
  }

  /** Lines 115-118: trim; if the reply starts with a fence, delete every
      match of the pattern; trim again. The result has no whitespace at its
      ends, is never longer than the trimmed reply, and, when the deletion
      ran, holds no three backticks in a row. */
  function StripAudioFence(reply: string): (r: string)
    ensures Trimmed(r)
    ensures |r| <= |Trim(reply)|
    ensures StartsWith(Trim(reply), Fence) ==> !ContainsFence(r)
  {
    var content := Trim(reply);
    if StartsWith(content, Fence) then
      var cleaned := DeleteFences(content);
      DeletedFenceFree(content);
      TrimKeepsFenceFree(cleaned);
      Trim(cleaned)
    else
      Trim(content)
  }

  /** Every character kept, none deleted. */
  function KeepAll(s: string): (ps: seq<Piece>)
    ensures Reassemble(ps) == s && KeptText(ps) == s
    ensures forall k :: 0 <= k < |ps| ==> ps[k].Kept?
  {
    if s == [] then []
    else
      assert [s[0]] + s[1..] == s;
      [Kept(s[0])] + KeepAll(s[1..])
  }

  /** The audio result is the trimmed reply cut into kept characters and
      deleted fence tokens, with only the kept characters retained and then
      whitespace trimmed from either end; when the trimmed reply does not
      start with a fence nothing is deleted. */
  lemma AudioStripShape(reply: string) returns (ps: seq<Piece>, lo: nat, hi: nat)
    ensures Reassemble(ps) == Trim(reply)
    ensures OnlyFencesDeleted(ps)
    ensures !StartsWith(Trim(reply), Fence) ==>
      forall k :: 0 <= k < |ps| ==> ps[k].Kept?
    ensures lo <= hi <= |KeptText(ps)|
    ensures StripAudioFence(reply) == KeptText(ps)[lo..hi]
    ensures AllWhitespace(KeptText(ps)[..lo]) && AllWhitespace(KeptText(ps)[hi..])
  {
    var content := Trim(reply);
    var kept: string;
    if StartsWith(content, Fence) {
      ps := Scan(content);
      ScanDeletes(content);
      kept := DeleteFences(content);
    } else {
      ps := KeepAll(content);
      kept := content;
    }
    assert StripAudioFence(reply) == Trim(kept);
    lo, hi := TrimSlice(kept);
  }

  /** A reply whose trimmed text does not start with a fence reaches
      `JSON.parse` as the trimmed text, even if fences occur later in it. */
  lemma AudioUnfencedIsTrim(reply: string)
    requires !StartsWith(Trim(reply), Fence)
    ensures StripAudioFence(reply) == Trim(reply)
  {
    TrimIdempotent(reply);
  }

  /** Cleaning an already cleaned reply changes nothing. */
  lemma AudioIdempotent(reply: string)
    ensures StripAudioFence(StripAudioFence(reply)) == StripAudioFence(reply)
  {
    var r := StripAudioFence(reply);
    TrimmedIsFixed(r);
    if StartsWith(Trim(reply), Fence) {
      FenceAtStart(r);
      assert !FenceAt(r, 0);
    } else {
      TrimIdempotent(reply);
    }
  }

  /** A leading "```json" is deleted whole. */
  lemma DeleteJsonFence(rest: string)
    ensures DeleteFences(JsonFence + rest) == DeleteFences(rest)
  {
    var s := JsonFence + rest;
    assert s[..6] == JsoFence && s[6..][..1] == "n";
    FenceMatchMeaning(s);
    DeleteFencesStep(s);
    assert s[7..] == rest;
  }

  /** A leading "```jso" not followed by `n` is deleted whole. */
  lemma DeleteJsoFence(rest: string)
    requires !StartsWith(rest, "n")
    ensures DeleteFences(JsoFence + rest) == DeleteFences(rest)
  {
    var s := JsoFence + rest;
    assert s[..6] == JsoFence && s[6..] == rest;
    FenceMatchMeaning(s);
    DeleteFencesStep(s);
  }

  /** A leading "```" not followed by "jso" is deleted alone. */
  lemma DeleteBareFence(rest: string)
    requires !StartsWith(rest, "jso")
    ensures DeleteFences(Fence + rest) == DeleteFences(rest)
  {
    var s := Fence + rest;
    assert s[..3] == Fence && s[3..] == rest;
    FenceThenTag(rest, "jso");
    assert JsoFence == Fence + "jso";
    FenceMatchMeaning(s);
    DeleteFencesStep(s);
  }

  /** On a trimmed reply that opens with a fence, the audio path is the
      deletion followed by a trim. */
  lemma AudioOnTrimmedFenced(reply: string)
    requires Trimmed(reply) && StartsWith(reply, Fence)
    ensures StripAudioFence(reply) == Trim(DeleteFences(reply))
  {
    TrimmedIsFixed(reply);
  }

  /** Deleting the fences of a ```json ... ``` block whose body has no
      backtick leaves exactly the body. */
  lemma DeleteFencesOfFenced(body: string)
    requires NoBacktick(body)
    ensures DeleteFences(JsonFence + body + Fence) == body
  {
    DeleteJsonFence(body + Fence);
    assert JsonFence + body + Fence == JsonFence + (body + Fence);
    PlainPrefixKept(body, Fence);
    DeleteBareFence([]);
    assert Fence + [] == Fence;
    assert body + [] == body;
  }

  /** The intended case: a reply fenced as ```json ... ``` (whitespace
      around it allowed) whose body has no backtick yields the trimmed body. */
  lemma AudioFencedRoundTrip(before: string, body: string, after: string)
    requires AllWhitespace(before) && AllWhitespace(after)
    requires NoBacktick(body)
    ensures StripAudioFence(before + JsonFence + body + Fence + after) == Trim(body)
  {
    var fenced := JsonFence + body + Fence;
    FencedBlockTrim(before, body, after);
    assert fenced[..3] == Fence;
    DeleteFencesOfFenced(body);
  }
}
