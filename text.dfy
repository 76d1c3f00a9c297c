/**
 * Cleaning of a cue's text as the parser does it: `str.strip()` followed by
 * `replace('\n', ' ')`.
 */
module Text {

  /** Python's `str.isspace` for a single character. */
  predicate IsSpace(c: char)
  {
    c == '\t' || c == '\n' || c == '\U{0B}' || c == '\U{0C}' || c == '\r' ||
    ('\U{1C}' <= c <= '\U{1F}') || c == ' ' || c == '\U{85}' || c == '\U{A0}' ||
    c == '\U{1680}' || ('\U{2000}' <= c <= '\U{200A}') || c == '\U{2028}' || c == '\U{2029}' ||
    c == '\U{202F}' || c == '\U{205F}' || c == '\U{3000}'
  }

  /** Neither end of s is whitespace. */
  predicate Trimmed(s: string)
  {
    s == [] || (!IsSpace(s[0]) && !IsSpace(s[|s| - 1]))
  }

  /** How many whitespace characters s starts with. */
  function LeadingSpaces(s: string): (k: nat)
    ensures k <= |s|
    ensures forall i :: 0 <= i < k ==> IsSpace(s[i])
    ensures k < |s| ==> !IsSpace(s[k])
  {
    if s != [] && IsSpace(s[0]) then 1 + LeadingSpaces(s[1..]) else 0
  }

  /** How many whitespace characters s ends with. */
  function TrailingSpaces(s: string): (k: nat)
    ensures k <= |s|
    ensures forall i :: |s| - k <= i < |s| ==> IsSpace(s[i])
    ensures k < |s| ==> !IsSpace(s[|s| - 1 - k])
  {
    if s != [] && IsSpace(s[|s| - 1]) then 1 + TrailingSpaces(s[..|s| - 1]) else 0
  }

  /**
   * `str.strip()`: what is left starts at the first non-whitespace
   * character of s and ends at its last one; all that is removed, on either
   * side, is whitespace.
   */
  function Strip(s: string): (r: string)
    ensures Trimmed(r)
    ensures |r| <= |s| - LeadingSpaces(s)
    ensures r == s[LeadingSpaces(s)..LeadingSpaces(s) + |r|]
    ensures forall i :: LeadingSpaces(s) + |r| <= i < |s| ==> IsSpace(s[i])
  {
    var lead := LeadingSpaces(s);
    if lead == |s| then [] else
      var trail := TrailingSpaces(s);
      s[lead..|s| - trail]
  }

  /** `replace('\n', ' ')`: every newline becomes a space, nothing else changes. */
  function ReplaceNewlines(s: string): (r: string)
    ensures |r| == |s|
    ensures forall i :: 0 <= i < |s| ==> r[i] == (if s[i] == '\n' then ' ' else s[i])
  {
    if s == [] then [] else ReplaceNewlines(s[..|s| - 1]) + [if s[|s| - 1] == '\n' then ' ' else s[|s| - 1]]
  }

  /**
   * The text stored for a cue: trimmed, with no newline left in it, and no
   * longer than the matched text.
   */
  function Clean(text: string): (r: string)
    ensures '\n' !in r
    ensures Trimmed(r)
    ensures |r| <= |text|
  {
    var stripped := Strip(text);
    var r := ReplaceNewlines(stripped);
    assert forall i :: 0 <= i < |r| ==> r[i] != '\n';
    r
  }

  /** A text that is already trimmed and on one line is stored as it is. */
  lemma {:induction false} CleanKeepsCleanText(text: string)
    requires Trimmed(text) && '\n' !in text
    ensures Clean(text) == text
  {
    assert text != [] ==> LeadingSpaces(text) == 0 && TrailingSpaces(text) == 0;
    assert Strip(text) == text;
    assert ReplaceNewlines(text) == text;
  }

  /** Cleaning twice is cleaning once. */
  lemma CleanIdempotent(text: string)
    ensures Clean(Clean(text)) == Clean(text)
  {
    CleanKeepsCleanText(Clean(text));
  }
}
