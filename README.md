# SRT to synchronized speech: a Dafny model

The program reads an SRT subtitle file and finds every subtitle block with a
regular expression. It converts each block's start timecode to milliseconds
and cleans its text. It then synthesizes one speech clip per subtitle and
stitches the clips into one audio track. Before each clip it inserts just
enough silence to reach the subtitle's start. A clip is never cut, so a long
clip pushes the following ones later.

The model has six modules:

- `Wrappers` (`wrappers.dfy`): `Option` and `Result`.
- `Timestamp` (`timestamp.dfy`): `srt_time_to_ms`.
  - Splitting on `:` and `,` is modelled, and so is reading each field as a decimal number.
  - `None` stands for the inputs on which Python would raise.
- `Text` (`text.dfy`): `text.strip().replace('\n', ' ')`.
  - Whitespace is Python's `str.isspace` set.
- `SrtParser` (`srt_parser.dfy`): `parse_srt`.
  - `MatchAt` is the block pattern tried at one position. It covers the greedy `\d+` index, the two `\d{2}:\d{2}:\d{2},\d{3}` timecodes and the lazy DOTALL text. The text ends at the first blank line or at `$`. `$` holds at the end of the input or before a final newline.
  - `FindAll` is `findall`'s scan. After a failed attempt it moves on one character. After a match it resumes where the match ended.
  - `Render` writes blocks back out as SRT text. It is used for the round-trip lemmas.
- `Stitcher` (`stitcher.dfy`): the stitching loop of `main`.
  - `Assemble` is the loop itself, as a method.
  - `Stitched` specifies it cue by cue, and `Cursor` is the running `last_position_ms`.
  - `ClipOffset` is an independent closed form of where each clip starts: the latest point any earlier cue, followed back to back by the clips from it on, pushes that clip to.
  - Audio is a sequence of `Silence(ms)` and `Clip(cue, ms)` segments.
- `Pipeline` (`pipeline.dfy`): the control flow of `main`.
  - Reading the file is an optional input.
  - Generating and then loading clip i is a function from (i, text) to the clip's length in milliseconds.

## Model

| member | source | states |
|---|---|---|
| Timestamp.SrtTimeToMs | main.py.py:40-43 | on every timestamp the subtitle pattern accepts, the result is defined and equals (h*3600 + m*60 + s)*1000 + ms of its four fields; it never exceeds (99*3600+99*60+99)*1000+999, since minutes and seconds are not checked against 60 |
| Timestamp.TimeToMsExample | main.py.py:40-43 | `01:02:03,004` converts to 3723004 ms |
| Timestamp.TimestampFields | main.py.py:42 | a timestamp of the accepted shape splits on `[:,]` into exactly its four fixed-width fields, which are at most 99, 99, 99 and 999 |
| Timestamp.SplitFields | main.py.py:42 | `re.split('[:,]')` yields at least one field and no field contains a separator |
| Timestamp.SplitJoin | main.py.py:42 | there is one more field than separators, and re-joining the fields with the input's separators gives the input back |
| Text.Strip | main.py.py:36 | `strip()` removes exactly the leading and trailing whitespace: the result is the input from its first non-space character to its last one and begins and ends with a non-space |
| Text.ReplaceNewlines | main.py.py:36 | `replace('\n', ' ')` keeps the length, turns every newline into a space and keeps every other character |
| Text.Clean | main.py.py:36 | the cleaned text has no newline, is trimmed and is no longer than the input |
| Text.CleanKeepsCleanText | main.py.py:36 | text that is already trimmed and on one line is left unchanged |
| Text.CleanIdempotent | main.py.py:36 | cleaning twice is the same as cleaning once |
| SrtParser.LeadingDigitsIsRun | main.py.py:25 | the greedy `\d+` takes exactly k characters when the input starts with k digits and no further digit follows them, and only then |
| SrtParser.TextEndIsFirst | main.py.py:25 | the lazy text group stops at the first blank line or end anchor, and the match ends after the blank line or at the anchor |
| SrtParser.MatchAt | main.py.py:24-27 | a match consumes at least 32 characters and no more than the input |
| SrtParser.MatchIsWellFormed | main.py.py:24-27 | every match yields a digit index, two timestamps of the accepted shape and a text holding no blank line and not ending in a newline |
| SrtParser.FoundBlockIsRead | main.py.py:24-27 | a match is read from the input: the input starts with the found block's header and text, followed either by a blank line that the match takes or by the end anchor where it stops |
| SrtParser.FindAll | main.py.py:29 | every match found is well formed, and a content of n characters holds at most n/32 matches |
| SrtParser.NoMatchNoBlocks | main.py.py:29 | `findall` returns nothing exactly when the pattern matches at no position |
| SrtParser.Subtitles | main.py.py:31-37 | one subtitle per match, in order; its start is `srt_time_to_ms` of the match's start timecode and its text the cleaned match text |
| SrtParser.ParseSrt | main.py.py:22-38 | one subtitle per block found; every start is at most the largest timestamp and every text is trimmed and free of newlines |
| SrtParser.EmptyParse | main.py.py:29-38 | the subtitle list is empty exactly when the pattern matches nowhere in the content |
| SrtParser.MatchBlankBlock | main.py.py:25 | a well-formed block whose text is followed by a blank line is matched as itself, and the match takes the blank line |
| SrtParser.MatchAnchorBlock | main.py.py:25 | a well-formed block whose text is followed only by the end anchor (the end of input, or one final newline) is matched as itself, and the match stops at the anchor |
| SrtParser.MatchRenderedBlock | main.py.py:24-27 | a well-formed block written as SRT text and closed by a blank line is matched as itself, whatever follows it |
| SrtParser.MatchFinalBlock | main.py.py:24-29 | a file's last block, followed by nothing, by one final newline or by a blank line, is found as exactly that block |
| SrtParser.RenderedThen | main.py.py:29 | blocks written as SRT text in front of any text are found first, in order, followed by what is found in that text |
| SrtParser.RenderRoundTrip | main.py.py:24-29 | a file made of well-formed blocks, each closed by a blank line, is found back as exactly those blocks, in order |
| SrtParser.FileRoundTrip | main.py.py:24-29 | a file of well-formed blocks whose last block ends with the end of input, one final newline or a blank line is found back as exactly those blocks, in order |
| SrtParser.ParseRendered | main.py.py:22-38 | parsing such a file, with any of those three endings, gives one subtitle per block, in order, with the converted start time and the cleaned text |
| Stitcher.Appended | main.py.py:84-91 | one cue appends a silence of start - cursor only when that is positive, followed by the cue's clip |
| Stitcher.AppendedLength | main.py.py:84-91 | one cue appends max(start, cursor) - cursor + clip length milliseconds |
| Stitcher.ClipOffset | main.py.py:84-91 | the independent offset of clip i is never before its cue's start |
| Stitcher.Assemble | main.py.py:79-93 | the loop builds exactly the cue-by-cue audio; the final cursor is the audio's length and, with at least one cue, the end of the last clip |
| Stitcher.LengthIsCursor | main.py.py:80-93 | after n cues `last_position_ms` equals the length of the audio |
| Stitcher.StepLength | main.py.py:84-93 | after cue i the length is max(start of cue i, previous length) + clip length, never less than before |
| Stitcher.PrefixStable | main.py.py:82-93 | audio is only appended to: earlier audio is a prefix of later audio, and the cursor never decreases |
| Stitcher.OffsetRecurrence | main.py.py:84-93 | clip 0 starts at its cue's start and clip i+1 at max(its start, end of clip i) |
| Stitcher.EndOfLastClip | main.py.py:79-93 | the cursor after n cues is where clip n-1 ends according to the closed form |
| Stitcher.ClipPlacement | main.py.py:79-93 | the final audio holds clip i whole, with exactly its closed-form offset of audio before it |
| Stitcher.NoOverlap | main.py.py:84-93 | clip i starts no earlier than its cue, and clip i+1 starts no earlier than the end of clip i |
| Stitcher.SilenceOnlyBeforeClips | main.py.py:84-86 | every silence is positive and directly followed by a clip |
| Stitcher.ClipsInCueOrder | main.py.py:88-91 | the clips in the audio are exactly the cues' clips, each once, in cue order |
| Stitcher.SingleCueAtZero | main.py.py:79-93 | one cue at 0 ms with a 2000 ms clip gives exactly that clip, 2000 ms long |
| Pipeline.SynthesizeAll | main.py.py:69-75 | one clip per subtitle; clip i comes from subtitle i's text |
| Pipeline.Run | main.py.py:50-93 | a missing file stops with InputNotFound; the run stops with NoSubtitles exactly when parsing finds nothing, and no clip is made then; it succeeds exactly when the file is present and has subtitles, and then it makes one clip per subtitle and returns the stitched audio of the subtitles' starts and those clips |

## Left out

- Speech synthesis (`generate_tts_for_clip`, main.py.py:45-48) calls an online service. It is a function parameter of `Pipeline.Run` giving each clip's length.
- The asynchronous clip generation (`asyncio.as_completed`) and the `tqdm` progress bars are not modelled. Clips are produced in subtitle order, and the completion order changes nothing the model observes.
- Audio contents, the MP3 codec and export are not modelled.
  - Audio is modelled only by segment lengths in exact milliseconds.
  - pydub's frame-rate handling, which can round lengths, is not modelled.
- File I/O is not modelled: the temporary directory, reading the SRT file as UTF-8, clip paths, file removal, and every message printed to the console.
  - The only file effect kept is the missing-file exit.
  - Encoding errors on reading are not modelled.
  - `open(..., 'r')` reads in universal-newline mode (main.py.py:56), so `\r\n` and `\r` become `\n` before parsing. The `input` of `Pipeline.Run` is the text after that translation, and the parser model sees only `\n` line ends.
- Pipeline.Run: the clip-length function is total, so once parsing succeeds the model always produces audio. In the program, a failed speech request raises out of `await future` (main.py.py:74-75) and an unreadable clip raises in `AudioSegment.from_mp3` (main.py.py:90); either one aborts `main` and leaves the temporary files behind. Those failures are not modelled.
- Timestamp.SrtTimeToMs: outside the pattern's timestamps it models `int` as reading only non-empty ASCII digit runs. Python's `int` also accepts signs, surrounding whitespace, underscores and other Unicode digits.
- SrtParser.MatchAt: `\d` is modelled as ASCII digits, while Python's `\d` in a `str` pattern also matches other Unicode decimal digits.
- SrtParser.ParseRendered: the concrete block `1`, `00:00:01,500 --> 00:00:03,000`, `Hello world` is covered only through this general round trip. No lemma evaluates the parser on that literal.
