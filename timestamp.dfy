/**
 * SubRip timestamps (`HH:MM:SS,mmm`) and their conversion to milliseconds,
 * as `srt_time_to_ms` performs it: split at every `:` and `,`, read each
 * piece as a decimal integer, and combine the four numbers.
 */
module Timestamp {
  import opened Wrappers

  predicate IsDigit(c: char) { '0' <= c <= '9' }

  predicate IsDigits(s: string) { forall i :: 0 <= i < |s| ==> IsDigit(s[i]) }

  function DigitValue(c: char): (d: nat)
    requires IsDigit(c)
    ensures d < 10
  {
    c as int - '0' as int
  }

  /** The value of a decimal numeral, most significant digit first. */
  function Decimal(s: string): nat
    requires IsDigits(s)
  {
    if s == [] then 0 else Decimal(s[..|s| - 1]) * 10 + DigitValue(s[|s| - 1])
  }

  /** The two- and three-digit numerals of a timestamp, digit by digit. */
  lemma DecimalOfTwo(s: string)
    requires |s| == 2 && IsDigits(s)
    ensures Decimal(s) == 10 * DigitValue(s[0]) + DigitValue(s[1])
  {
    var first := s[..1];
    assert first[..0] == [];
    assert Decimal(first) == DigitValue(s[0]);
    assert s[..|s| - 1] == first;
  }

  lemma DecimalOfThree(s: string)
    requires |s| == 3 && IsDigits(s)
    ensures Decimal(s) == 100 * DigitValue(s[0]) + 10 * DigitValue(s[1]) + DigitValue(s[2])
  {
    DecimalOfTwo(s[..2]);
  }

  predicate IsSeparator(c: char) { c == ':' || c == ',' }

  /** Index of the first `:` or `,` in s, or |s| when there is none. */
  function FirstSeparator(s: string): (k: nat)
    ensures k <= |s|
    ensures forall i :: 0 <= i < k ==> !IsSeparator(s[i])
    ensures k < |s| ==> IsSeparator(s[k])
  {
    if s == [] || IsSeparator(s[0]) then 0 else 1 + FirstSeparator(s[1..])
  }

  /** The pieces of s between separators, as the pattern `[:,]` splits it. */
  function SplitFields(s: string): (fields: seq<string>)
    ensures |fields| >= 1
    ensures forall k, i :: 0 <= k < |fields| && 0 <= i < |fields[k]| ==> !IsSeparator(fields[k][i])
    decreases |s|
  {
    var k := FirstSeparator(s);
    if k == |s| then [s] else [s[..k]] + SplitFields(s[k + 1..])
  }

  /** The separators of s, in order. */
  function Separators(s: string): (seps: string)
    ensures forall i :: 0 <= i < |seps| ==> IsSeparator(seps[i])
  {
    if s == [] then [] else (if IsSeparator(s[0]) then [s[0]] else []) + Separators(s[1..])
  }

  /** Puts split fields back together, the i-th separator between fields i and i + 1. */
  function Join(fields: seq<string>, seps: string): string
    requires |fields| == |seps| + 1
    decreases |seps|
  {
    if seps == [] then fields[0] else fields[0] + [seps[0]] + Join(fields[1..], seps[1..])
  }

  /** A prefix free of separators contributes none. */
  lemma {:induction false} SeparatorsSkip(s: string, k: nat)
    requires k <= |s|
    requires forall i :: 0 <= i < k ==> !IsSeparator(s[i])
    ensures Separators(s) == Separators(s[k..])
  {
    if k > 0 {
      assert s[1..][k - 1..] == s[k..];
      SeparatorsSkip(s[1..], k - 1);
    }
  }

  /** Splitting loses nothing but the separators: re-joining with them gives the input back. */
  lemma {:induction false} SplitJoin(s: string)
    ensures |SplitFields(s)| == |Separators(s)| + 1
    ensures Join(SplitFields(s), Separators(s)) == s
    decreases |s|
  {
    var k := FirstSeparator(s);
    SeparatorsSkip(s, k);
    if k == |s| {
      assert s[k..] == [];
    } else {
      var u := s[k + 1..];
      SplitJoin(u);
      SeparatorThenRest(s, k);
      SplitJoinStep(s[..k], s[k], u);
      AroundIndex(s, k);
    }
  }

  /** A sequence is what comes before index k, the element at k, and what follows. */
  lemma AroundIndex<T>(s: seq<T>, k: nat)
    requires k < |s|
    ensures s == s[..k] + [s[k]] + s[k + 1..]
  {
  }

  /** A separator at k is the first of the separators from k on. */
  lemma SeparatorThenRest(s: string, k: nat)
    requires k < |s| && IsSeparator(s[k])
    ensures Separators(s[k..]) == [s[k]] + Separators(s[k + 1..])
  {
    assert s[k..][1..] == s[k + 1..];
  }

  /** Re-joining after one more field and separator puts them back in front. */
  lemma SplitJoinStep(field: string, sep: char, u: string)
    requires |SplitFields(u)| == |Separators(u)| + 1
    ensures Join([field] + SplitFields(u), [sep] + Separators(u)) == field + [sep] + Join(SplitFields(u), Separators(u))
  {
    var fields, seps := [field] + SplitFields(u), [sep] + Separators(u);
    assert fields[1..] == SplitFields(u) && seps[1..] == Separators(u);
  }

  /** A piece that Python's `int` reads here: a non-empty run of digits. */
  predicate IsNumeral(f: string) { f != [] && IsDigits(f) }

  /** The shape the subtitle pattern accepts: `\d{2}:\d{2}:\d{2},\d{3}`. */
  predicate IsTimestamp(s: string)
  {
    |s| == 12 &&
    IsDigit(s[0]) && IsDigit(s[1]) && s[2] == ':' &&
    IsDigit(s[3]) && IsDigit(s[4]) && s[5] == ':' &&
    IsDigit(s[6]) && IsDigit(s[7]) && s[8] == ',' &&
    IsDigit(s[9]) && IsDigit(s[10]) && IsDigit(s[11])
  }

  /** The largest value a timestamp of the accepted shape can denote (minutes and seconds are not checked against 60). */
  const MaxTimestampMs: nat := (99 * 3600 + 99 * 60 + 99) * 1000 + 999

  /** Hours, minutes and seconds of a well-shaped timestamp. */
  function Hours(s: string): nat requires IsTimestamp(s) { Decimal(s[..2]) }
  function Minutes(s: string): nat requires IsTimestamp(s) { Decimal(s[3..5]) }
  function Seconds(s: string): nat requires IsTimestamp(s) { Decimal(s[6..8]) }
  function Millis(s: string): nat requires IsTimestamp(s) { Decimal(s[9..]) }

  /**
   * `srt_time_to_ms`: None where Python's unpacking or `int` would raise.
   * On every timestamp the subtitle pattern accepts it yields the closed form
   * (h*3600 + m*60 + s)*1000 + ms, which lies in [0, MaxTimestampMs].
   */
  function SrtTimeToMs(s: string): (r: Option<nat>)
    ensures IsTimestamp(s) ==> r.Some?
    ensures IsTimestamp(s) ==> r.value == (Hours(s) * 3600 + Minutes(s) * 60 + Seconds(s)) * 1000 + Millis(s)
    ensures IsTimestamp(s) ==> r.value <= MaxTimestampMs
  {
    TimestampFields(s);
    var f := SplitFields(s);
    if |f| == 4 && IsNumeral(f[0]) && IsNumeral(f[1]) && IsNumeral(f[2]) && IsNumeral(f[3]) then
      Some((Decimal(f[0]) * 3600 + Decimal(f[1]) * 60 + Decimal(f[2])) * 1000 + Decimal(f[3]))
    else
      None
  }

  /** A well-shaped timestamp splits into its four fixed-width fields. */
  lemma TimestampFields(s: string)
    ensures IsTimestamp(s) ==> SplitFields(s) == [s[..2], s[3..5], s[6..8], s[9..]]
    ensures IsTimestamp(s) ==> IsNumeral(s[..2]) && IsNumeral(s[3..5]) && IsNumeral(s[6..8]) && IsNumeral(s[9..])
    ensures IsTimestamp(s) ==> Hours(s) <= 99 && Minutes(s) <= 99 && Seconds(s) <= 99 && Millis(s) <= 999
  {
    if IsTimestamp(s) {
      var t1 := s[3..];
      var t2 := s[6..];
      var t3 := s[9..];
      assert FirstSeparator(t3) == 3;
      assert SplitFields(t3) == [s[9..]];
      assert FirstSeparator(t2) == 2;
      assert t2[3..] == t3 && t2[..2] == s[6..8];
      assert SplitFields(t2) == [s[6..8], s[9..]];
      assert FirstSeparator(t1) == 2;
      assert t1[3..] == t2 && t1[..2] == s[3..5];
      assert SplitFields(t1) == [s[3..5], s[6..8], s[9..]];
      assert FirstSeparator(s) == 2;
      assert s[3..] == t1;
      DecimalOfTwo(s[..2]);
      DecimalOfTwo(s[3..5]);
      DecimalOfTwo(s[6..8]);
      DecimalOfThree(s[9..]);
    }
  }

  /** The worked example of the conversion: 01:02:03,004 is 3723004 ms. */
  lemma TimeToMsExample()
    ensures SrtTimeToMs("01:02:03,004") == Some(3723004)
  {
    ExampleFields("01:02:03,004");
  }

  /** The fields of the worked example. */
  lemma ExampleFields(s: string)
    requires s == "01:02:03,004"
    ensures IsTimestamp(s) && Hours(s) == 1 && Minutes(s) == 2 && Seconds(s) == 3 && Millis(s) == 4
  {
    assert IsTimestamp(s);
    DecimalOfTwo(s[..2]);
    DecimalOfTwo(s[3..5]);
    DecimalOfTwo(s[6..8]);
    DecimalOfThree(s[9..]);
  }
}
