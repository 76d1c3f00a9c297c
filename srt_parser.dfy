/**
 * The subtitle parser `parse_srt`. Its pattern
 *   index digits, newline, start timestamp, " --> ", end timestamp, newline,
 *   then the shortest text (any characters, newlines included) followed by a
 *   blank line or by the end of the input
 * is modelled as an explicit scanner: FindAll tries the block shape at the
 * start of the remaining input, keeps the block and continues after it on
 * success, and moves one character on otherwise, as `findall` does.
 */
module SrtParser {
  import opened Wrappers
  import opened Timestamp
  import opened Text

  /** The four groups of one match: index, start, end and the raw text. */
  datatype Match = Match(index: string, start: string, end: string, text: string)

  /** One entry of the parsed list: the start time and the cleaned text (the end time is dropped). */
  datatype Subtitle = Subtitle(startMs: nat, text: string)

  /** A match and the position just after it, where the scan resumes. */
  datatype Found = Found(block: Match, next: nat)

  const Arrow: string := " --> "

  /** Number of characters of a block before its text, given an index of `digits` digits. */
  function HeaderLength(digits: nat): nat { digits + 31 }

  /** No blank line inside t, and t does not end with a newline. */
  predicate IsSingleParagraph(t: string)
  {
    (forall k :: 0 <= k < |t| ==> !BlankLineAt(t, k)) &&
    (t == [] || t[|t| - 1] != '\n')
  }

  /** The blocks the pattern can produce, and, by RenderRoundTrip, exactly those. */
  predicate WellFormed(m: Match)
  {
    m.index != [] && IsDigits(m.index) &&
    IsTimestamp(m.start) && IsTimestamp(m.end) &&
    IsSingleParagraph(m.text)
  }

  /** How many digits s starts with (the greedy `\d+`). */
  function LeadingDigits(s: string): (k: nat)
    ensures k <= |s|
  {
    DigitsFrom(s, 0)
  }

  /** The end of the run of digits of s that starts at i. */
  function DigitsFrom(s: string, i: nat): (k: nat)
    requires i <= |s|
    ensures i <= k <= |s|
    decreases |s| - i
  {
    if i < |s| && IsDigit(s[i]) then DigitsFrom(s, i + 1) else i
  }

  /** The run of digits from i ends at k exactly when s holds digits on [i, k) and no digit at k. */
  lemma {:induction false} DigitsFromIsRun(s: string, i: nat, k: nat)
    requires i <= k <= |s|
    ensures DigitsFrom(s, i) == k <==>
      (forall j :: i <= j < k ==> IsDigit(s[j])) && (k < |s| ==> !IsDigit(s[k]))
    decreases k - i
  {
    if i < k {
      DigitsFromIsRun(s, i + 1, k);
    }
  }

  /** `\d+` takes exactly k digits when s starts with k digits and no further digit follows. */
  lemma LeadingDigitsIsRun(s: string, k: nat)
    requires k <= |s|
    ensures LeadingDigits(s) == k <==>
      (forall j :: 0 <= j < k ==> IsDigit(s[j])) && (k < |s| ==> !IsDigit(s[k]))
  {
    DigitsFromIsRun(s, 0, k);
  }

  /** A blank-line terminator `\n\n` starts at j. */
  predicate BlankLineAt(s: string, j: nat)
  {
    j + 2 <= |s| && s[j] == '\n' && s[j + 1] == '\n'
  }

  /** `$` without MULTILINE matches at j: the end of s, or just before a final newline. */
  predicate EndAnchorAt(s: string, j: nat)
  {
    j == |s| || (j + 1 == |s| && s[j] == '\n')
  }

  /**
   * The lazy text group starting at j: the text ends at the first position
   * where a blank line or the end anchor matches. Returns that position and
   * the end of the whole match (after the blank line, or at the anchor).
   */
  function TextEnd(s: string, j: nat): (r: (nat, nat))
    requires j <= |s|
    ensures j <= r.0 <= r.1 <= |s|
    decreases |s| - j
  {
    if BlankLineAt(s, j) then (j, j + 2)
    else if EndAnchorAt(s, j) then (j, j)
    else TextEnd(s, j + 1)
  }

  /**
   * The text group stops at the first position where a blank line or the
   * end anchor matches; the match takes the blank line, or ends at the anchor.
   */
  lemma {:induction false} TextEndIsFirst(s: string, j: nat)
    requires j <= |s|
    ensures var r := TextEnd(s, j);
      (forall k :: j <= k < r.0 ==> !BlankLineAt(s, k) && !EndAnchorAt(s, k)) &&
      if BlankLineAt(s, r.0) then r.1 == r.0 + 2 else EndAnchorAt(s, r.0) && r.1 == r.0
    decreases |s| - j
  {
    if !BlankLineAt(s, j) && !EndAnchorAt(s, j) {
      TextEndIsFirst(s, j + 1);
    }
  }

  /** The text the lazy group captures is always a single paragraph. */
  lemma TextIsSingleParagraph(s: string, q: nat)
    requires q <= |s|
    ensures IsSingleParagraph(s[q..TextEnd(s, q).0])
  {
    var (j, e) := TextEnd(s, q);
    var t := s[q..j];
    TextEndIsFirst(s, q);
    forall k | 0 <= k < |t|
      ensures !BlankLineAt(t, k)
    {
      assert !BlankLineAt(s, q + k);
    }
    assert t != [] ==> !BlankLineAt(s, j - 1) && !EndAnchorAt(s, j - 1);
  }

  /** The pattern matched at the start of s, if it matches there. */
  function MatchAt(s: string): (r: Option<Found>)
    ensures r.Some? ==> HeaderLength(1) <= r.value.next <= |s|
  {
    var k := LeadingDigits(s);
    if k == 0 || |s| < HeaderLength(k) || s[k] != '\n' ||
       !IsTimestamp(s[k + 1..k + 13]) || s[k + 13..k + 18] != Arrow ||
       !IsTimestamp(s[k + 18..k + 30]) || s[k + 30] != '\n'
    then None
    else
      var q := HeaderLength(k);
      var (j, e) := TextEnd(s, q);
      Some(Found(Match(s[..k], s[k + 1..k + 13], s[k + 18..k + 30], s[q..j]), e))
  }

  /** Every block the pattern matches is well formed: a digit index, two timestamps and a single-paragraph text. */
  lemma MatchIsWellFormed(s: string)
    requires MatchAt(s).Some?
    ensures WellFormed(MatchAt(s).value.block)
  {
    var k := LeadingDigits(s);
    LeadingDigitsIsRun(s, k);
    assert forall i :: 0 <= i < k ==> s[..k][i] == s[i];
    TextIsSingleParagraph(s, HeaderLength(k));
  }

  /**
   * `findall`: every match, in the order of the input, each search resuming
   * where the previous match ended. Every block takes at least 32 characters.
   */
  function FindAll(s: string): (r: seq<Match>)
    ensures forall i :: 0 <= i < |r| ==> WellFormed(r[i])
    ensures 32 * |r| <= |s|
    decreases |s|
  {
    if s == [] then []
    else match MatchAt(s)
      case Some(f) =>
        var rest := FindAll(s[f.next..]);
        FoundThenRest(s, f, rest);
        [f.block] + rest
      case None => FindAll(s[1..])
  }

  /** A block found at the start of s, followed by well-formed blocks, gives well-formed blocks. */
  lemma FoundThenRest(s: string, f: Found, rest: seq<Match>)
    requires MatchAt(s) == Some(f)
    requires forall i :: 0 <= i < |rest| ==> WellFormed(rest[i])
    ensures forall i :: 0 <= i < |[f.block] + rest| ==> WellFormed(([f.block] + rest)[i])
  {
    MatchIsWellFormed(s);
    ConsWellFormed(f.block, rest);
  }

  lemma ConsWellFormed(m: Match, ms: seq<Match>)
    requires WellFormed(m) && forall i :: 0 <= i < |ms| ==> WellFormed(ms[i])
    ensures forall i :: 0 <= i < |[m] + ms| ==> WellFormed(([m] + ms)[i])
  {
    forall i | 0 <= i < |[m] + ms|
      ensures WellFormed(([m] + ms)[i])
    {
      if i > 0 {
        assert ([m] + ms)[i] == ms[i - 1];
      }
    }
  }

  /**
   * The parse loop: one Subtitle per match, in order, its start the
   * converted start timestamp and its text the cleaned match text.
   */
  function Subtitles(ms: seq<Match>): (subs: seq<Subtitle>)
    requires forall i :: 0 <= i < |ms| ==> SrtTimeToMs(ms[i].start).Some?
    ensures |subs| == |ms|
    ensures forall i :: 0 <= i < |ms| ==>
      SrtTimeToMs(ms[i].start) == Some(subs[i].startMs) && subs[i].text == Clean(ms[i].text)
  {
    if ms == [] then []
    else
      var init, m := ms[..|ms| - 1], ms[|ms| - 1];
      assert forall i :: 0 <= i < |init| ==> init[i] == ms[i];
      var sub := Subtitle(SrtTimeToMs(m.start).value, Clean(m.text));
      SnocConverted(ms, Subtitles(init), sub);
      Subtitles(init) + [sub]
  }

  /** Appending the subtitle of the last match keeps every subtitle paired with its match. */
  lemma SnocConverted(ms: seq<Match>, subs: seq<Subtitle>, sub: Subtitle)
    requires ms != [] && |subs| == |ms| - 1
    requires forall i :: 0 <= i < |subs| ==>
      SrtTimeToMs(ms[..|ms| - 1][i].start) == Some(subs[i].startMs) && subs[i].text == Clean(ms[..|ms| - 1][i].text)
    requires SrtTimeToMs(ms[|ms| - 1].start) == Some(sub.startMs) && sub.text == Clean(ms[|ms| - 1].text)
    ensures forall i :: 0 <= i < |ms| ==>
      SrtTimeToMs(ms[i].start) == Some((subs + [sub])[i].startMs) && (subs + [sub])[i].text == Clean(ms[i].text)
  {
    forall i | 0 <= i < |ms|
      ensures SrtTimeToMs(ms[i].start) == Some((subs + [sub])[i].startMs) && (subs + [sub])[i].text == Clean(ms[i].text)
    {
      if i < |subs| {
        assert ms[..|ms| - 1][i] == ms[i] && (subs + [sub])[i] == subs[i];
      }
    }
  }

  /**
   * `parse_srt`: the subtitles of every block, in order. Each start is at
   * most MaxTimestampMs and each text is trimmed and on one line.
   */
  function ParseSrt(content: string): (subs: seq<Subtitle>)
    ensures |subs| == |FindAll(content)|
    ensures forall i :: 0 <= i < |subs| ==>
      subs[i].startMs <= MaxTimestampMs && '\n' !in subs[i].text && Trimmed(subs[i].text)
  {
    Subtitles(FindAll(content))
  }

  /** The parsed list is empty exactly when the pattern matches at no position of the content. */
  lemma EmptyParse(content: string)
    ensures ParseSrt(content) == [] <==> forall p :: 0 <= p < |content| ==> MatchAt(content[p..]).None?
  {
    NoMatchNoBlocks(content);
  }

  /** findall finds nothing exactly when the pattern matches at no position. */
  lemma {:induction false} NoMatchNoBlocks(s: string)
    ensures FindAll(s) == [] <==> forall p :: 0 <= p < |s| ==> MatchAt(s[p..]).None?
  {
    if s != [] {
      NoMatchNoBlocks(s[1..]);
      assert s[0..] == s;
      forall p | 1 <= p < |s|
        ensures s[p..] == s[1..][p - 1..]
      {
      }
      if MatchAt(s).None? {
        assert FindAll(s) == FindAll(s[1..]);
        if forall p :: 0 <= p < |s[1..]| ==> MatchAt(s[1..][p..]).None? {
          forall p | 0 <= p < |s|
            ensures MatchAt(s[p..]).None?
          {
            if p > 0 {
              assert MatchAt(s[1..][p - 1..]).None?;
            }
          }
        }
      }
    }
  }

  /** The line pair before a block's text: index line and timecode line. */
  function Header(m: Match): string
  {
    m.index + "\n" + m.start + Arrow + m.end + "\n"
  }

  /** The text of one block as a subtitle file writes it, blank line included. */
  function RenderBlock(m: Match): string
  {
    Header(m) + m.text + "\n\n"
  }

  /**
   * The last block of a file, followed by `ending`: nothing, one final
   * newline, or a blank line (then it is RenderBlock(m)).
   */
  function FinalBlock(m: Match, ending: string): string
  {
    Header(m) + m.text + ending
  }

  /** How a file may end after its last block's text. */
  predicate IsEnding(ending: string)
  {
    ending == "" || ending == "\n" || ending == "\n\n"
  }

  /** A subtitle file holding the given blocks one after the other. */
  function Render(ms: seq<Match>): string
  {
    if ms == [] then [] else RenderBlock(ms[0]) + Render(ms[1..])
  }

  /** Where each field of a header lies. */
  lemma HeaderLayout(m: Match)
    requires |m.start| == 12 && |m.end| == 12
    ensures var h, k := Header(m), |m.index|;
      |h| == HeaderLength(k) && h[..k] == m.index && h[k] == '\n' &&
      h[k + 1..k + 13] == m.start && h[k + 13..k + 18] == Arrow &&
      h[k + 18..k + 30] == m.end && h[k + 30] == '\n'
  {
    var k := |m.index|;
    var a := m.index + "\n";
    var b := a + m.start;
    var c := b + Arrow;
    var d := c + m.end;
    var h := Header(m);
    assert h == d + "\n";
    assert h[..|d|] == d && h[..|c|] == c && h[..|b|] == b && h[..|a|] == a;
    assert h[..k] == a[..k] == m.index;
    assert h[k + 1..k + 13] == b[|a|..] == m.start;
    assert h[k + 13..k + 18] == c[|b|..] == Arrow;
    assert h[k + 18..k + 30] == d[|c|..] == m.end;
  }

  /** A slice of a known prefix of s is that slice of the prefix. */
  lemma PrefixSlice<T>(s: seq<T>, p: seq<T>, i: nat, j: nat)
    requires |p| <= |s| && s[..|p|] == p && i <= j <= |p|
    ensures s[i..j] == p[i..j]
  {
    forall t | i <= t < j
      ensures s[t] == p[t]
    {
      assert s[t] == s[..|p|][t];
    }
  }

  /** The header of a well-formed block passes every test of the pattern before the text. */
  lemma HeaderMatches(m: Match, s: string)
    requires m.index != [] && IsDigits(m.index) && |m.start| == 12 && |m.end| == 12
    requires |Header(m)| <= |s| && s[..|Header(m)|] == Header(m)
    ensures var k := |m.index|;
      |Header(m)| == HeaderLength(k) && LeadingDigits(s) == k &&
      s[..k] == m.index && s[k] == '\n' &&
      s[k + 1..k + 13] == m.start && s[k + 13..k + 18] == Arrow &&
      s[k + 18..k + 30] == m.end && s[k + 30] == '\n'
  {
    var k, h := |m.index|, Header(m);
    HeaderLayout(m);
    PrefixSlice(s, h, 0, k);
    PrefixSlice(s, h, k + 1, k + 13);
    PrefixSlice(s, h, k + 13, k + 18);
    PrefixSlice(s, h, k + 18, k + 30);
    assert s[k] == h[k] && s[k + 30] == h[k + 30];
    assert forall i :: 0 <= i < k ==> s[i] == m.index[i];
    LeadingDigitsIsRun(s, k);
  }

  /** The lazy text group stops right after a single paragraph that a blank line or the end anchor follows. */
  lemma TextEndAfterParagraph(s: string, q: nat, t: nat)
    requires q + t <= |s|
    requires IsSingleParagraph(s[q..q + t])
    requires BlankLineAt(s, q + t) || EndAnchorAt(s, q + t)
    ensures TextEnd(s, q) == (q + t, if BlankLineAt(s, q + t) then q + t + 2 else q + t)
  {
    var text := s[q..q + t];
    TextEndIsFirst(s, q);
    forall j | q <= j < q + t
      ensures !BlankLineAt(s, j) && !EndAnchorAt(s, j)
    {
      if j + 1 < q + t {
        assert !BlankLineAt(text, j - q);
      } else {
        assert s[j] == text[t - 1];
      }
    }
  }

  /** A rendered well-formed block is matched as itself, whatever follows it. */
  lemma MatchRenderedBlock(m: Match, s: string)
    requires WellFormed(m)
    requires |RenderBlock(m)| <= |s| && s[..|RenderBlock(m)|] == RenderBlock(m)
    ensures MatchAt(s) == Some(Found(m, |RenderBlock(m)|))
  {
    BlockStartsWithText(m, s);
    MatchBlankBlock(m, s);
  }

  /** An input that starts with a rendered block starts with the block's header and text, then a blank line. */
  lemma BlockStartsWithText(m: Match, s: string)
    requires |RenderBlock(m)| <= |s| && s[..|RenderBlock(m)|] == RenderBlock(m)
    ensures var p := |Header(m)| + |m.text|;
      p + 2 == |RenderBlock(m)| && s[..p] == Header(m) + m.text && BlankLineAt(s, p)
  {
    var p := |Header(m)| + |m.text|;
    assert s[..p] == RenderBlock(m)[..p];
    assert s[p] == RenderBlock(m)[p] && s[p + 1] == RenderBlock(m)[p + 1];
  }

  /** A prefix made of two parts holds each part at its place. */
  lemma SplitPrefix<T>(s: seq<T>, a: seq<T>, b: seq<T>)
    requires |a| + |b| <= |s| && s[..|a| + |b|] == a + b
    ensures s[..|a|] == a && s[|a|..|a| + |b|] == b
  {
    PrefixSlice(s, a + b, 0, |a|);
    PrefixSlice(s, a + b, |a|, |a| + |b|);
    assert (a + b)[..|a|] == a && (a + b)[|a|..|a| + |b|] == b;
  }





  /**
   * A file's last block is found as itself, and as the only block there,
   * whether it ends at the end of the input, before one final newline or
   * with a blank line.
   */
  lemma MatchFinalBlock(m: Match, ending: string)
    requires WellFormed(m) && IsEnding(ending)
    ensures FindAll(FinalBlock(m, ending)) == [m]
  {
    var s := FinalBlock(m, ending);
    if ending == "\n\n" {
      assert s == RenderBlock(m) && s[..|s|] == s;
      MatchRenderedBlock(m, s);
      assert s[|s|..] == [];
    } else {
      var p := |Header(m)| + |m.text|;
      assert s[..p] == Header(m) + m.text && s[p..] == ending;
      MatchAnchorBlock(m, s);
      EndingHasNoBlock(ending);
    }
  }

  /** MatchAt yields m, and resumes after the blank line, when s holds m's block and then a blank line. */
  lemma MatchBlankBlock(m: Match, s: string)
    requires WellFormed(m)
    requires |Header(m)| + |m.text| <= |s| && s[..|Header(m)| + |m.text|] == Header(m) + m.text
    requires BlankLineAt(s, |Header(m)| + |m.text|)
    ensures MatchAt(s) == Some(Found(m, |Header(m)| + |m.text| + 2))
  {
    var k, q, t := |m.index|, |Header(m)|, |m.text|;
    BlockFields(m, s);
    TextEndAfterParagraph(s, q, t);
    MatchAtAccepts(s, m, k, q + t, q + t + 2);
  }

  /** MatchAt yields m, and stops at the anchor, when s holds m's block and then only the end anchor. */
  lemma MatchAnchorBlock(m: Match, s: string)
    requires WellFormed(m)
    requires |Header(m)| + |m.text| <= |s| && s[..|Header(m)| + |m.text|] == Header(m) + m.text
    requires !BlankLineAt(s, |Header(m)| + |m.text|) && EndAnchorAt(s, |Header(m)| + |m.text|)
    ensures MatchAt(s) == Some(Found(m, |Header(m)| + |m.text|))
  {
    var k, q, t := |m.index|, |Header(m)|, |m.text|;
    BlockFields(m, s);
    TextEndAfterParagraph(s, q, t);
    MatchAtAccepts(s, m, k, q + t, q + t);
  }

  /** A block's header and text at the start of s pass every test MatchAt makes before the text. */
  lemma BlockFields(m: Match, s: string)
    requires WellFormed(m)
    requires |Header(m)| + |m.text| <= |s| && s[..|Header(m)| + |m.text|] == Header(m) + m.text
    ensures var k, q := |m.index|, |Header(m)|;
      q == HeaderLength(k) && 0 < k && LeadingDigits(s) == k && s[k] == '\n' && s[k + 30] == '\n' &&
      IsTimestamp(s[k + 1..k + 13]) && s[k + 13..k + 18] == Arrow && IsTimestamp(s[k + 18..k + 30]) &&
      IsSingleParagraph(s[q..q + |m.text|]) &&
      Match(s[..k], s[k + 1..k + 13], s[k + 18..k + 30], s[q..q + |m.text|]) == m
  {
    SplitPrefix(s, Header(m), m.text);
    HeaderMatches(m, s);
  }

  /** MatchAt yields m, resuming at e, when every test before the text passes and the fields are m's. */
  lemma MatchAtAccepts(s: string, m: Match, k: nat, j: nat, e: nat)
    requires 0 < k && HeaderLength(k) <= |s| && LeadingDigits(s) == k && s[k] == '\n'
    requires IsTimestamp(s[k + 1..k + 13]) && s[k + 13..k + 18] == Arrow
    requires IsTimestamp(s[k + 18..k + 30]) && s[k + 30] == '\n'
    requires TextEnd(s, HeaderLength(k)) == (j, e)
    requires Match(s[..k], s[k + 1..k + 13], s[k + 18..k + 30], s[HeaderLength(k)..j]) == m
    ensures MatchAt(s) == Some(Found(m, e))
  {
  }

  /** Nothing is found in what follows a last block ended by the anchor. */
  lemma EndingHasNoBlock(ending: string)
    requires ending == "" || ending == "\n"
    ensures FindAll(ending) == []
  {
    if ending == "\n" {
      assert MatchAt(ending).None?;
      assert ending[1..] == [];
    }
  }

  /**
   * Conversely, a block the pattern finds is read straight from the input:
   * the input starts with the block's header and text, followed by a blank
   * line that the match consumes, or by the end anchor where the match stops.
   */
  lemma FoundBlockIsRead(s: string, m: Match, e: nat)
    requires MatchAt(s) == Some(Found(m, e))
    ensures var p := |Header(m)| + |m.text|;
      p <= |s| && s[..p] == Header(m) + m.text &&
      ((BlankLineAt(s, p) && e == p + 2) || (!BlankLineAt(s, p) && EndAnchorAt(s, p) && e == p))
  {
    var k := LeadingDigits(s);
    var j := TextEnd(s, HeaderLength(k)).0;
    TextEndIsFirst(s, HeaderLength(k));
    assert m == Match(s[..k], s[k + 1..k + 13], s[k + 18..k + 30], s[HeaderLength(k)..j]);
    ReadBack(s, m, k, j);
  }

  /** Fields found at their places in s spell out the block's header and text. */
  lemma ReadBack(s: string, m: Match, k: nat, j: nat)
    requires HeaderLength(k) <= j <= |s| && s[k] == '\n' && s[k + 30] == '\n'
    requires s[..k] == m.index && s[k + 1..k + 13] == m.start && s[k + 13..k + 18] == Arrow
    requires s[k + 18..k + 30] == m.end && s[HeaderLength(k)..j] == m.text
    ensures |Header(m)| + |m.text| == j && s[..j] == Header(m) + m.text
  {
    SlicesJoin(s, k, k + 1);
    assert s[k..k + 1] == "\n";
    SlicesJoin(s, k + 1, k + 13);
    SlicesJoin(s, k + 13, k + 18);
    SlicesJoin(s, k + 18, k + 30);
    SlicesJoin(s, k + 30, k + 31);
    assert s[k + 30..k + 31] == "\n";
    SlicesJoin(s, k + 31, j);
  }

  /** A prefix of s grows by the slice that follows it. */
  lemma SlicesJoin<T>(s: seq<T>, i: nat, j: nat)
    requires i <= j <= |s|
    ensures s[..j] == s[..i] + s[i..j]
  {
  }

  /** findall takes a rendered block at the head of the input, then goes on after its blank line. */
  lemma BlockThenRest(m: Match, rest: string)
    requires WellFormed(m)
    ensures FindAll(RenderBlock(m) + rest) == [m] + FindAll(rest)
  {
    var s := RenderBlock(m) + rest;
    assert s[..|RenderBlock(m)|] == RenderBlock(m);
    MatchRenderedBlock(m, s);
    assert s[|RenderBlock(m)|..] == rest;
  }

  /** findall finds every rendered block at the head of the input, then goes on with what follows them. */
  lemma {:induction false} RenderedThen(ms: seq<Match>, rest: string)
    requires forall i :: 0 <= i < |ms| ==> WellFormed(ms[i])
    ensures FindAll(Render(ms) + rest) == ms + FindAll(rest)
  {
    if ms == [] {
      assert Render(ms) + rest == rest;
    } else {
      RenderFirst(ms, rest);
      BlockThenRest(ms[0], Render(ms[1..]) + rest);
      RenderedThen(ms[1..], rest);
      HeadThenAppend(ms, FindAll(rest));
    }
  }

  /**
   * The parsing round trip: a file made of well-formed blocks, each closed
   * by a blank line, is parsed back into exactly those blocks, in order.
   */
  lemma RenderRoundTrip(ms: seq<Match>)
    requires forall i :: 0 <= i < |ms| ==> WellFormed(ms[i])
    ensures FindAll(Render(ms)) == ms
  {
    RenderedThen(ms, []);
    assert Render(ms) + [] == Render(ms);
  }

  /**
   * The round trip for a whole file: blocks closed by blank lines, then a
   * last block closed by the end of the input, one final newline or a
   * blank line, are found back as exactly those blocks, in order.
   */
  lemma FileRoundTrip(ms: seq<Match>, m: Match, ending: string)
    requires forall i :: 0 <= i < |ms| ==> WellFormed(ms[i])
    requires WellFormed(m) && IsEnding(ending)
    ensures FindAll(Render(ms) + FinalBlock(m, ending)) == ms + [m]
  {
    RenderedThen(ms, FinalBlock(m, ending));
    MatchFinalBlock(m, ending);
  }

  /** Appending after the tail of a non-empty sequence is appending after the sequence. */
  /** Rendered blocks followed by more text start with the first block. */
  lemma RenderFirst(ms: seq<Match>, rest: string)
    requires ms != []
    ensures Render(ms) + rest == RenderBlock(ms[0]) + (Render(ms[1..]) + rest)
  {
  }

  lemma HeadThenAppend<T>(xs: seq<T>, ys: seq<T>)
    requires xs != []
    ensures xs + ys == [xs[0]] + (xs[1..] + ys)
  {
  }

  /**
   * Parsing a file of well-formed blocks gives one subtitle per block, in
   * order: its start is the block's start time converted to milliseconds
   * and its text the block's text, trimmed and joined onto one line.
   */
  lemma ParseRendered(ms: seq<Match>, m: Match, ending: string)
    requires forall i :: 0 <= i < |ms| ==> WellFormed(ms[i])
    requires WellFormed(m) && IsEnding(ending)
    ensures var blocks, subs := ms + [m], ParseSrt(Render(ms) + FinalBlock(m, ending));
      |subs| == |blocks| &&
      forall i :: 0 <= i < |blocks| ==>
        SrtTimeToMs(blocks[i].start) == Some(subs[i].startMs) && subs[i].text == Clean(blocks[i].text)
  {
    FileRoundTrip(ms, m, ending);
  }
}
