/**
 * The program's main routine with its effects taken out: reading the SRT
 * file becomes an optional input (None when the file is missing), and
 * synthesizing then loading cue i's clip becomes a function giving the
 * clip's length in milliseconds. What remains is the control flow: the two
 * early exits, one clip per subtitle, and the stitching loop.
 */
module Pipeline {
  import opened Wrappers
  import opened SrtParser
  import opened Stitcher

  /** Why the program stops without producing audio. */
  datatype Abort = InputNotFound | NoSubtitles

  /** The start times of the subtitles, in order. */
  function StartTimes(subs: seq<Subtitle>): (starts: seq<nat>)
    ensures |starts| == |subs|
    ensures forall i :: 0 <= i < |subs| ==> starts[i] == subs[i].startMs
  {
    if subs == [] then [] else StartTimes(subs[..|subs| - 1]) + [subs[|subs| - 1].startMs]
  }

  /**
   * The clip-generation loop: one clip per subtitle, clip i synthesized
   * from subtitle i's text, with its length in milliseconds as the result.
   */
  method SynthesizeAll(subs: seq<Subtitle>, clipLength: (nat, string) -> nat) returns (durations: seq<nat>)
    ensures |durations| == |subs|
    ensures forall i :: 0 <= i < |subs| ==> durations[i] == clipLength(i, subs[i].text)
  {
    durations := [];
    for i := 0 to |subs|
      invariant |durations| == i
      invariant forall j :: 0 <= j < i ==> durations[j] == clipLength(j, subs[j].text)
    {
      durations := durations + [clipLength(i, subs[i].text)];
    }
  }

  /**
   * Runs the program on `input`. It stops with InputNotFound when there is
   * no input and with NoSubtitles exactly when parsing finds no subtitle;
   * otherwise it synthesizes one clip per subtitle, clip i from subtitle
   * i's text, and returns the stitched audio.
   */
  method Run(input: Option<string>, clipLength: (nat, string) -> nat)
    returns (r: Result<seq<Segment>, Abort>, durations: seq<nat>)
    ensures input.None? ==> r == Err(InputNotFound) && durations == []
    ensures input.Some? ==> (r == Err(NoSubtitles) <==> ParseSrt(input.value) == [])
    ensures r.Err? ==> durations == []
    ensures r.Ok? <==> input.Some? && ParseSrt(input.value) != []
    ensures r.Ok? ==>
      var subs := ParseSrt(input.value);
      |durations| == |subs| &&
      (forall i :: 0 <= i < |subs| ==> durations[i] == clipLength(i, subs[i].text)) &&
      r.value == Stitched(StartTimes(subs), durations, |subs|)
  {
    if input.None? {
      return Err(InputNotFound), [];
    }
    var subs := ParseSrt(input.value);
    if subs == [] {
      return Err(NoSubtitles), [];
    }
    durations := SynthesizeAll(subs, clipLength);
    var audio, _ := Assemble(StartTimes(subs), durations);
    r := Ok(audio);
  }
}
