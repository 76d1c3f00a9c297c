/**
 * The stitching loop of the program: clips are appended in cue order, each
 * preceded by just enough silence to reach its cue's start when the audio
 * so far is shorter than that start, and never trimmed or overlapped when
 * it is longer. Audio is modelled by its segments and their lengths in
 * milliseconds.
 */
module Stitcher {

  /** A piece of the output: generated silence, or the synthesized clip of one cue. */
  datatype Segment = Silence(ms: nat) | Clip(cue: nat, ms: nat)

  function Max(a: int, b: int): int { if a < b then b else a }

  /** `len(final_audio)`: the total length of the segments, in milliseconds. */
  function Length(audio: seq<Segment>): nat
  {
    if audio == [] then 0 else Length(audio[..|audio| - 1]) + audio[|audio| - 1].ms
  }

  lemma {:induction false} LengthAppend(a: seq<Segment>, b: seq<Segment>)
    ensures Length(a + b) == Length(a) + Length(b)
    decreases |b|
  {
    if b != [] {
      var ab := a + b;
      assert ab[..|ab| - 1] == a + b[..|b| - 1];
      assert ab[|ab| - 1] == b[|b| - 1];
      LengthAppend(a, b[..|b| - 1]);
      assert Length(ab) == Length(ab[..|ab| - 1]) + ab[|ab| - 1].ms;
    } else {
      assert a + b == a;
    }
  }

  /** Sum of a sequence of durations. */
  function Sum(d: seq<nat>): nat
  {
    if d == [] then 0 else Sum(d[..|d| - 1]) + d[|d| - 1]
  }

  /**
   * The cursor `last_position_ms` after the first n cues: cue n - 1's clip
   * begins at the later of its start and the previous cursor, and the
   * cursor moves to the end of that clip.
   */
  function Cursor(starts: seq<nat>, durations: seq<nat>, n: nat): nat
    requires n <= |starts| == |durations|
  {
    if n == 0 then 0
    else Max(starts[n - 1], Cursor(starts, durations, n - 1)) + durations[n - 1]
  }

  /**
   * What one cue appends to audio whose cursor is at `cursor`: silence up to
   * the cue's start if that start lies beyond the cursor, then the cue's clip.
   */
  function Appended(cursor: nat, start: nat, cue: nat, duration: nat): (tail: seq<Segment>)
    ensures 1 <= |tail| <= 2 && tail[|tail| - 1] == Clip(cue, duration)
    ensures |tail| == 2 <==> start > cursor
    ensures |tail| == 2 ==> tail[0] == Silence(start - cursor)
  {
    var silenceNeeded := start - cursor;
    (if silenceNeeded > 0 then [Silence(silenceNeeded)] else []) + [Clip(cue, duration)]
  }

  lemma AppendedLength(cursor: nat, start: nat, cue: nat, duration: nat)
    ensures Length(Appended(cursor, start, cue, duration)) == Max(start, cursor) - cursor + duration
  {
    var tail := Appended(cursor, start, cue, duration);
    var lead := tail[..|tail| - 1];
    assert Length(tail) == Length(lead) + duration;
    if |tail| == 2 {
      assert lead == [Silence(start - cursor)] && lead[..0] == [];
      assert Length(lead) == start - cursor;
    } else {
      assert lead == [];
    }
  }

  /**
   * The audio after the first n cues have been stitched: the audio after
   * n - 1 cues followed by what cue n - 1 appends to it.
   */
  function Stitched(starts: seq<nat>, durations: seq<nat>, n: nat): seq<Segment>
    requires n <= |starts| == |durations|
  {
    if n == 0 then []
    else Stitched(starts, durations, n - 1) + Appended(Cursor(starts, durations, n - 1), starts[n - 1], n - 1, durations[n - 1])
  }

  /**
   * The latest of the positions starts[j] + durations[j] + ... + durations[i - 1]
   * for j <= k: where clip i starts at the earliest if clips j .. i - 1 are
   * played back to back from cue j's start.
   */
  function LatestReach(starts: seq<nat>, durations: seq<nat>, i: nat, k: nat): (r: nat)
    requires k <= i < |starts| == |durations|
    ensures forall j :: 0 <= j <= k ==> starts[j] + Sum(durations[j..i]) <= r
  {
    var reach := starts[k] + Sum(durations[k..i]);
    if k == 0 then reach else Max(LatestReach(starts, durations, i, k - 1), reach)
  }

  /** The latest reach is attained: some cue j <= k pushes clip i exactly that far. */
  lemma {:induction false} ReachAttained(starts: seq<nat>, durations: seq<nat>, i: nat, k: nat)
    requires k <= i < |starts| == |durations|
    ensures exists j :: 0 <= j <= k && LatestReach(starts, durations, i, k) == starts[j] + Sum(durations[j..i])
  {
    var reach := starts[k] + Sum(durations[k..i]);
    if LatestReach(starts, durations, i, k) != reach {
      ReachAttained(starts, durations, i, k - 1);
      var j :| 0 <= j <= k - 1 && LatestReach(starts, durations, i, k - 1) == starts[j] + Sum(durations[j..i]);
      assert LatestReach(starts, durations, i, k) == starts[j] + Sum(durations[j..i]);
    }
  }

  /**
   * Where clip i begins in the output, defined independently of the loop:
   * the latest point that any earlier cue's start, followed by the clips
   * from it to clip i, pushes clip i to. It is never before cue i's start.
   */
  function ClipOffset(starts: seq<nat>, durations: seq<nat>, i: nat): (r: nat)
    requires i < |starts| == |durations|
    ensures starts[i] <= r
  {
    LatestReach(starts, durations, i, i)
  }

  /**
   * The stitching loop. On return the audio is the cue-by-cue result
   * Stitched and the cursor is its length; for a non-empty cue list that
   * length is the end of the last clip.
   */
  method Assemble(starts: seq<nat>, durations: seq<nat>) returns (audio: seq<Segment>, lastPosition: nat)
    requires |starts| == |durations|
    ensures audio == Stitched(starts, durations, |starts|)
    ensures lastPosition == Length(audio)
    ensures |starts| > 0 ==> lastPosition == ClipOffset(starts, durations, |starts| - 1) + durations[|starts| - 1]
  {
    audio, lastPosition := [], 0;
    for i := 0 to |starts|
      invariant audio == Stitched(starts, durations, i)
      invariant lastPosition == Length(audio) == Cursor(starts, durations, i)
    {
      ghost var tail := Appended(lastPosition, starts[i], i, durations[i]);
      ghost var before := audio;
      var silenceNeeded := starts[i] - lastPosition;
      if silenceNeeded > 0 {
        audio := audio + [Silence(silenceNeeded)];
      }
      audio := audio + [Clip(i, durations[i])];
      assert audio == before + tail;
      LengthIsCursor(starts, durations, i + 1);
      lastPosition := Length(audio);
    }
    if |starts| > 0 {
      EndOfLastClip(starts, durations, |starts|);
    }
  }

  /** The cursor is the length of the audio stitched so far. */
  lemma {:induction false} LengthIsCursor(starts: seq<nat>, durations: seq<nat>, n: nat)
    requires n <= |starts| == |durations|
    ensures Length(Stitched(starts, durations, n)) == Cursor(starts, durations, n)
  {
    if n > 0 {
      LengthIsCursor(starts, durations, n - 1);
      LengthStep(Stitched(starts, durations, n - 1), Cursor(starts, durations, n - 1), starts[n - 1], n - 1, durations[n - 1]);
    }
  }

  /** One cue lengthens audio whose length is the cursor to the cursor's next value. */
  lemma LengthStep(before: seq<Segment>, cursor: nat, start: nat, cue: nat, duration: nat)
    requires Length(before) == cursor
    ensures Length(before + Appended(cursor, start, cue, duration)) == Max(start, cursor) + duration
  {
    LengthAppend(before, Appended(cursor, start, cue, duration));
    AppendedLength(cursor, start, cue, duration);
  }

  /**
   * One step of the loop: after cue i the audio is max(start of cue i,
   * previous length) + the clip's duration long, and never shorter than before.
   */
  lemma StepLength(starts: seq<nat>, durations: seq<nat>, i: nat)
    requires i < |starts| == |durations|
    ensures Length(Stitched(starts, durations, i + 1)) ==
      Max(starts[i], Length(Stitched(starts, durations, i))) + durations[i]
    ensures Length(Stitched(starts, durations, i)) <= Length(Stitched(starts, durations, i + 1))
  {
    LengthIsCursor(starts, durations, i);
    LengthIsCursor(starts, durations, i + 1);
  }

  /**
   * The audio is only ever appended to: the audio after m cues is a prefix
   * of the audio after n >= m cues, and the cursor never moves back.
   */
  lemma {:induction false} PrefixStable(starts: seq<nat>, durations: seq<nat>, m: nat, n: nat)
    requires m <= n <= |starts| == |durations|
    ensures |Stitched(starts, durations, m)| <= |Stitched(starts, durations, n)|
    ensures Stitched(starts, durations, m) == Stitched(starts, durations, n)[..|Stitched(starts, durations, m)|]
    ensures Cursor(starts, durations, m) <= Cursor(starts, durations, n)
    decreases n - m
  {
    if m < n {
      PrefixStable(starts, durations, m, n - 1);
      var early, before, after := Stitched(starts, durations, m), Stitched(starts, durations, n - 1), Stitched(starts, durations, n);
      var tail := Appended(Cursor(starts, durations, n - 1), starts[n - 1], n - 1, durations[n - 1]);
      assert after == before + tail;
      assert before == after[..|before|];
      assert early == after[..|early|];
    }
  }

  /** The closed form satisfies the loop's step: clip i + 1 starts at max(its cue start, end of clip i). */
  lemma OffsetRecurrence(starts: seq<nat>, durations: seq<nat>, i: nat)
    requires i + 1 < |starts| == |durations|
    ensures ClipOffset(starts, durations, 0) == starts[0]
    ensures ClipOffset(starts, durations, i + 1) ==
      Max(starts[i + 1], ClipOffset(starts, durations, i) + durations[i])
  {
    assert durations[0..0] == [];
    assert durations[i + 1..i + 1] == [];
    ReachShift(starts, durations, i, i);
  }

  /** Extending every back-to-back run by clip i adds durations[i] to each reach. */
  lemma {:induction false} ReachShift(starts: seq<nat>, durations: seq<nat>, i: nat, k: nat)
    requires k <= i && i + 1 < |starts| == |durations|
    ensures LatestReach(starts, durations, i + 1, k) == LatestReach(starts, durations, i, k) + durations[i]
  {
    assert durations[k..i + 1][..i - k] == durations[k..i];
    assert Sum(durations[k..i + 1]) == Sum(durations[k..i]) + durations[i];
    if k > 0 {
      ReachShift(starts, durations, i, k - 1);
    }
  }

  /** After the first n cues the cursor is where clip n - 1 ends. */
  lemma {:induction false} EndOfLastClip(starts: seq<nat>, durations: seq<nat>, n: nat)
    requires 0 < n <= |starts| == |durations|
    ensures Cursor(starts, durations, n) == ClipOffset(starts, durations, n - 1) + durations[n - 1]
  {
    if n == 1 {
      assert durations[0..0] == [];
    } else {
      EndOfLastClip(starts, durations, n - 1);
      OffsetRecurrence(starts, durations, n - 2);
    }
  }

  /** Index, in the final audio, of the segment holding clip i. */
  function ClipSegment(starts: seq<nat>, durations: seq<nat>, i: nat): nat
    requires i < |starts| == |durations|
  {
    |Stitched(starts, durations, i + 1)| - 1
  }

  /**
   * Where each clip lands: the final audio holds clip i, whole, with
   * exactly ClipOffset(i) milliseconds of audio before it.
   */
  lemma ClipPlacement(starts: seq<nat>, durations: seq<nat>, i: nat)
    requires i < |starts| == |durations|
    ensures var audio := Stitched(starts, durations, |starts|); var k := ClipSegment(starts, durations, i);
      k < |audio| && audio[k] == Clip(i, durations[i]) && Length(audio[..k]) == ClipOffset(starts, durations, i)
  {
    var audio := Stitched(starts, durations, |starts|);
    var upTo := Stitched(starts, durations, i + 1);
    var k := |upTo| - 1;
    LastClip(starts, durations, i + 1);
    PrefixStable(starts, durations, i + 1, |starts|);
    PrefixLast(audio, upTo);
  }

  /** A non-empty prefix fixes both the segment at its last index and everything before it. */
  lemma PrefixLast(audio: seq<Segment>, upTo: seq<Segment>)
    requires 0 < |upTo| <= |audio| && upTo == audio[..|upTo|]
    ensures audio[..|upTo| - 1] == upTo[..|upTo| - 1] && audio[|upTo| - 1] == upTo[|upTo| - 1]
  {
  }

  /** The audio after n cues ends with clip n - 1, preceded by exactly its closed-form offset. */
  lemma LastClip(starts: seq<nat>, durations: seq<nat>, n: nat)
    requires 0 < n <= |starts| == |durations|
    ensures var upTo := Stitched(starts, durations, n);
      upTo != [] && upTo[|upTo| - 1] == Clip(n - 1, durations[n - 1]) &&
      Length(upTo[..|upTo| - 1]) == ClipOffset(starts, durations, n - 1)
  {
    LengthIsCursor(starts, durations, n);
    EndOfLastClip(starts, durations, n);
  }

  /**
   * Clips keep their cue order and never overlap: clip i starts no earlier
   * than its cue, and clip i + 1 starts no earlier than the end of clip i.
   */
  lemma NoOverlap(starts: seq<nat>, durations: seq<nat>, i: nat)
    requires i + 1 < |starts| == |durations|
    ensures starts[i] <= ClipOffset(starts, durations, i)
    ensures ClipOffset(starts, durations, i) + durations[i] <= ClipOffset(starts, durations, i + 1)
  {
    OffsetRecurrence(starts, durations, i);
  }

  /** Every silence in the audio is positive and is directly followed by a clip. */
  predicate SilenceLeadsToClip(audio: seq<Segment>)
  {
    forall k :: 0 <= k < |audio| && audio[k].Silence? ==> audio[k].ms > 0 && k + 1 < |audio| && audio[k + 1].Clip?
  }

  /**
   * Silence is only ever inserted to reach a cue's start: every silence in
   * the audio is positive and is directly followed by a clip.
   */
  lemma {:induction false} SilenceOnlyBeforeClips(starts: seq<nat>, durations: seq<nat>, n: nat)
    requires n <= |starts| == |durations|
    ensures SilenceLeadsToClip(Stitched(starts, durations, n))
  {
    if n > 0 {
      SilenceOnlyBeforeClips(starts, durations, n - 1);
      var audio, before := Stitched(starts, durations, n), Stitched(starts, durations, n - 1);
      var tail := Appended(Cursor(starts, durations, n - 1), starts[n - 1], n - 1, durations[n - 1]);
      assert audio == before + tail;
      forall k | 0 <= k < |audio| && audio[k].Silence?
        ensures audio[k].ms > 0 && k + 1 < |audio| && audio[k + 1].Clip?
      {
        if k < |before| {
          assert audio[k] == before[k] && before[k].Silence?;
          assert k + 1 < |before|;
          assert audio[k + 1] == before[k + 1];
          assert audio[k].ms > 0;
          assert audio[k + 1].Clip?;
        } else {
          assert audio[k] == tail[k - |before|];
          assert k - |before| != |tail| - 1;
          assert |tail| == 2 && k == |before|;
          assert audio[k] == Silence(starts[n - 1] - Cursor(starts, durations, n - 1));
          assert audio[k + 1] == tail[1];
          assert audio[k].ms > 0;
          assert audio[k + 1].Clip?;
        }
      }
    }
  }

  /** The clips of the audio, in the order they appear. */
  function Clips(audio: seq<Segment>): seq<Segment>
  {
    if audio == [] then []
    else Clips(audio[..|audio| - 1]) + (if audio[|audio| - 1].Clip? then [audio[|audio| - 1]] else [])
  }

  lemma {:induction false} ClipsAppend(a: seq<Segment>, b: seq<Segment>)
    ensures Clips(a + b) == Clips(a) + Clips(b)
    decreases |b|
  {
    if b != [] {
      var ab := a + b;
      assert ab[..|ab| - 1] == a + b[..|b| - 1];
      assert ab[|ab| - 1] == b[|b| - 1];
      ClipsAppend(a, b[..|b| - 1]);
    } else {
      assert a + b == a;
    }
  }

  /** What one cue appends holds exactly one clip: that cue's. */
  lemma ClipsOfAppended(cursor: nat, start: nat, cue: nat, duration: nat)
    ensures Clips(Appended(cursor, start, cue, duration)) == [Clip(cue, duration)]
  {
    var tail := Appended(cursor, start, cue, duration);
    var lead := tail[..|tail| - 1];
    assert Clips(tail) == Clips(lead) + [Clip(cue, duration)];
    if |tail| == 2 {
      assert lead == [tail[0]] && lead[..0] == [];
      assert Clips(lead) == [];
    } else {
      assert lead == [];
    }
  }

  /** Appending clip n - 1 to the clips of cues 0 .. n - 2 gives the clips of cues 0 .. n - 1. */
  lemma CuesSnoc(cs: seq<Segment>, durations: seq<nat>, n: nat)
    requires 0 < n <= |durations| && |cs| == n - 1
    requires forall i :: 0 <= i < n - 1 ==> cs[i] == Clip(i, durations[i])
    ensures var all := cs + [Clip(n - 1, durations[n - 1])];
      |all| == n && forall i :: 0 <= i < n ==> all[i] == Clip(i, durations[i])
  {
  }

  /** Every cue contributes its own clip exactly once, in cue order, and nothing else is a clip. */
  lemma {:induction false} ClipsInCueOrder(starts: seq<nat>, durations: seq<nat>, n: nat)
    requires n <= |starts| == |durations|
    ensures var cs := Clips(Stitched(starts, durations, n));
      |cs| == n && forall i :: 0 <= i < n ==> cs[i] == Clip(i, durations[i])
  {
    if n > 0 {
      ClipsInCueOrder(starts, durations, n - 1);
      var before := Stitched(starts, durations, n - 1);
      var cs := Clips(Stitched(starts, durations, n));
      assert cs == Clips(before) + [Clip(n - 1, durations[n - 1])] by {
        var cursor := Cursor(starts, durations, n - 1);
        var tail := Appended(cursor, starts[n - 1], n - 1, durations[n - 1]);
        assert Stitched(starts, durations, n) == before + tail;
        ClipsAppend(before, tail);
        ClipsOfAppended(cursor, starts[n - 1], n - 1, durations[n - 1]);
      }
      CuesSnoc(Clips(before), durations, n);
    }
  }

  /** A single cue at 0 ms with a 2000 ms clip gives exactly that clip: 2000 ms, no leading silence. */
  lemma SingleCueAtZero()
    ensures Stitched([0], [2000], 1) == [Clip(0, 2000)]
    ensures Length(Stitched([0], [2000], 1)) == 2000
  {
    assert Stitched([0], [2000], 0) == [];
    assert Length([Clip(0, 2000)]) == 2000;
  }
}
