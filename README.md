# Subtitle timing core of the Hindi-to-English dubbing script

`dub_hindi_subtitle_to_En.py` reads a Hindi subtitle file in YouTube's SBV format, translates
every subtitle, writes an English SBV file, synthesizes one speech clip per subtitle, fits
each clip to its subtitle's time window and lays the clips out on one audio track. This
project models the part of that script that is exact logic, not calls into other services:

- `timestamp_to_ms` and `ms_to_timestamp`, which convert `HH:MM:SS.mmm` to integer
  milliseconds and back (module `Timestamp`, file `timestamp.dfy`);
- `parse_sbv` and `write_sbv`, with a file modelled as its text and `readlines()` as a
  function from text to lines (module `Sbv`, file `sbv.dfy`);
- the duration reconciler of step 4 and the sort-and-concatenate assembly of step 5. Every
  audio clip is modelled by its length in milliseconds (module `Dubbing`, file
  `dubbing.dfy`);
- the Python built-ins these rely on: `str.strip`, `str.split` on one character, `int()`,
  the `0Nd` integer format and `readlines()` (module `PyText`, file `pytext.dfy`);
- the exceptions the script can raise on bad input, as a `Result` (module `Results`, file
  `results.dfy`).

`ParseSbv`, `WriteSbv`, `AdjustAll` and `Assemble` are loops, as in the script. Each one is
proved equal to a recursive function: `ParseLines`, `RenderSbv`, the `Reconcile` of each
record, and `Timeline` over `SortByStart`. The lemmas state the script's promises about
those functions.

Python's `//` and `%` round towards negative infinity. For a positive divisor, Dafny's
Euclidean `/` and `%` do the same. So `MsToTimestamp` follows the script for negative
milliseconds too. The round trip `timestamp_to_ms(ms_to_timestamp(ms)) == ms` is proved for
every integer, not only for `ms >= 0`. For example, -1 prints as `-1:59:59.999` and reads
back as -1.

Three behaviours of the code on unusual input, which the model keeps:

- The code never checks `end > start`. The model accepts any integers, and `Reconcile`
  handles a zero-length or reversed window as lines 75-82 do.
- An empty clip gets silence, whatever the window (line 78). A non-empty clip with a
  zero-length window divides by zero (line 80).
- A timestamp line that is the last line of the file raises IndexError at line 18
  (`TimestampOnLastLine`).

## Model

| member | source | states |
|---|---|---|
| PyText.Strip | dub_hindi_subtitle_to_En.py:17-18 | `strip()` leaves text that neither starts nor ends with whitespace |
| PyText.StripSlice | dub_hindi_subtitle_to_En.py:17-18 | `strip()` keeps one contiguous slice of the line; everything removed before and after it is whitespace |
| PyText.BlankIsStripEmpty | dub_hindi_subtitle_to_En.py:14 | `line.strip() == ''` holds exactly when the line is whitespace only |
| PyText.Split | dub_hindi_subtitle_to_En.py:19 | `split(',')` gives at least one piece; no piece holds the separator; joining the pieces with it gives the string back |
| PyText.SplitJoin | dub_hindi_subtitle_to_En.py:28-29 | splitting the join of separator-free pieces gives exactly those pieces |
| PyText.ParseIntAlphabet | dub_hindi_subtitle_to_En.py:30 | any text `int()` accepts is made of whitespace, signs and digits only, so it holds no ':' or '.' |
| PyText.FormatInt | dub_hindi_subtitle_to_En.py:39 | the `0Nd` format is at least N characters long; it is digits after an optional leading '-'; for n >= 0 it is all digits with value n |
| PyText.FormatIntReads | dub_hindi_subtitle_to_En.py:39 | `int()` reads back exactly the number the `0Nd` format printed, negative numbers included |
| PyText.FormatIntWidth | dub_hindi_subtitle_to_En.py:39 | a value 0 <= n < 10^N prints in exactly N characters |
| PyText.ReadLinesShape | dub_hindi_subtitle_to_En.py:10 | `readlines()` lines concatenate to the file's text; each line but the last ends in its only '\n' |
| PyText.ReadLinesAppend | dub_hindi_subtitle_to_En.py:10 | text cut after a '\n' reads as the lines of the first part followed by the lines of the second |
| Timestamp.TimestampFormula | dub_hindi_subtitle_to_En.py:27-30 | for fields `int()` reads as h, m, s and r, `timestamp_to_ms("H:M:S.R")` is `(h*3600 + m*60 + s)*1000 + r` |
| Timestamp.MsToTimestamp | dub_hindi_subtitle_to_En.py:33-39 | the printed timestamp is non-empty and holds only digits, '-', ':' and '.'; it starts with a digit or '-' and ends with a digit |
| Timestamp.ClockArithmetic | dub_hindi_subtitle_to_En.py:34-38 | hours, minutes, seconds and milliseconds by floor division recombine to the original ms |
| Timestamp.TimestampRoundTrip | dub_hindi_subtitle_to_En.py:27-39 | `timestamp_to_ms(ms_to_timestamp(ms)) == ms` for every integer ms |
| Timestamp.TimestampFieldRanges | dub_hindi_subtitle_to_En.py:33-39 | for ms >= 0 the fields are all digits: hours in at least 2 digits, equal to ms // 3600000; minutes and seconds in exactly 2 and below 60; milliseconds in exactly 3 and below 1000 |
| Sbv.ParseSbv | dub_hindi_subtitle_to_En.py:8-24 | the cursor loop returns exactly the records, or the first error, that `ParseLines` gives for the lines |
| Sbv.ParseAppend | dub_hindi_subtitle_to_En.py:12-23 | after a prefix that parses, the records of the rest follow those of the prefix in file order; an error in the rest is the result |
| Sbv.TimestampOnLastLine | dub_hindi_subtitle_to_En.py:18 | a non-blank line left last, where a timestamp line is expected, fails with IndexError |
| Sbv.BadRecord | dub_hindi_subtitle_to_En.py:19-21 | a record whose timestamp line does not read stops the whole parse with that record's error |
| Sbv.RangeNeedsOneComma | dub_hindi_subtitle_to_En.py:17-19 | after lines that parse, a non-blank timestamp line whose stripped text holds no ',' or more than one stops the whole parse with the unpacking ValueError |
| Sbv.LayoutParses | dub_hindi_subtitle_to_En.py:12-23 | when the timestamp lines sit at the given positions and all other uncovered lines are blank, the parse reads each (timestamp line, next line) pair in file order |
| Sbv.ParsedIsLaidOut | dub_hindi_subtitle_to_En.py:12-23 | every file that parses has such a layout of timestamp lines, text lines and blank lines |
| Sbv.ParseCharacterised | dub_hindi_subtitle_to_En.py:12-23 | a file parses to given records exactly when some layout reads to those records |
| Sbv.RenderSbv | dub_hindi_subtitle_to_En.py:44-48 | the written text is empty or ends with '\n' |
| Sbv.WriteSbv | dub_hindi_subtitle_to_En.py:42-48 | the writing loop produces exactly `RenderSbv`: per record, the `start,end` line, the text line and an empty line |
| Sbv.EntryRoundTrip | dub_hindi_subtitle_to_En.py:45-48 | one written entry parses back to its own record when its text is one stripped line |
| Sbv.WriteThenParse | dub_hindi_subtitle_to_En.py:42-48 | parsing a written file gives back every record: start, end and text. The texts must be stripped and hold neither '\n' nor '\r'; start and end may be any integers |
| Dubbing.Reconcile | dub_hindi_subtitle_to_En.py:75-83 | an empty clip becomes silence of end - start ms (none if negative); a non-empty clip fails with ZeroDivisionError exactly when end == start; otherwise it takes the resampled length |
| Dubbing.AdjustAll | dub_hindi_subtitle_to_En.py:66-83 | step 4 succeeds exactly when no record has a non-empty clip and a zero-length window; then each record keeps its window and gets its reconciled clip, in order |
| Dubbing.InsertStable | dub_hindi_subtitle_to_En.py:86 | inserting a record puts it first among the records with its start time; it leaves the order of the others as it was |
| Dubbing.SortByStartCorrect | dub_hindi_subtitle_to_En.py:86 | `sorted(..., key=start_ms)` is ordered by start, is a permutation of its input, and keeps the input order of records with equal starts |
| Dubbing.Assemble | dub_hindi_subtitle_to_En.py:86-95 | the assembly loop builds exactly `Timeline` of the sorted records with previous_end starting at 0 |
| Dubbing.StepTrack | dub_hindi_subtitle_to_En.py:90-95 | one pass adds max(0, start - previous_end) ms of silence, only when positive, then the record's clip |
| Dubbing.TimelineClips | dub_hindi_subtitle_to_En.py:89-95 | the track plays each record's clip exactly once, in the order visited |
| Dubbing.TimelineGaps | dub_hindi_subtitle_to_En.py:91-93 | every inserted silence is strictly positive |
| Dubbing.TimelineLength | dub_hindi_subtitle_to_En.py:87-95 | the track lasts the sum of the clips plus the sum of max(0, start_i - previous_end_i) |
| Dubbing.SortClipSum | dub_hindi_subtitle_to_En.py:86 | sorting does not change the total clip length |
| Dubbing.AssembledTrack | dub_hindi_subtitle_to_En.py:86-95 | the assembled track visits a stable start-ordered permutation of the records; its silences are positive; its length is Σ clips + Σ max(0, start_i - previous_end_i) |
| Dubbing.NeverEarly | dub_hindi_subtitle_to_En.py:88-95 | when every clip fills its window, no clip starts before its subtitle, even with overlapping records |
| Dubbing.OnTime | dub_hindi_subtitle_to_En.py:88-95 | for ordered, non-overlapping records whose clips fill their windows, each clip starts exactly at its subtitle's start, and the track ends at the last end |
| Dubbing.AssembledOnTime | dub_hindi_subtitle_to_En.py:86-95 | for non-overlapping records with clips equal to end - start and starts >= 0, each clip plays at its start and the total length is the last record's end_ms |

## Left out

- Translation (googletrans), speech synthesis (gTTS), mp3 decoding and export (pydub), and the temporary files (dub_hindi_subtitle_to_En.py:56-60, 68-72, 98) are calls into other services and libraries. The model takes the synthesized clips' lengths as parameters of `AdjustAll`.
- Dubbing.Reconcile: for a non-empty clip and a non-empty window, the float speed factor, the truncated frame rate and the respawn of the raw audio (lines 80-82) are library numerics. The model takes the resulting length as the parameter `resampledMs`.
- Dubbing.SilenceMs: `AudioSegment.silent` of a negative duration is taken to be empty. pydub is not part of this model.
- Dubbing.TrackMs: segment lengths are exact milliseconds and add up exactly on `+=`. pydub's rounding of a duration to whole audio frames, and its frame-rate conversion on append, are not modelled.
- Dubbing.AdjustAll: a non-empty clip for a reversed window gives a negative speed factor and frame rate. Whatever pydub then does is not modelled; the record keeps the length given as its resampled length.
- The glue of `main` (lines 51-95) is not modelled as one operation. It stores `english_text` and `adjusted_audio` into each subtitle dict in place. `WriteSbv` writes each record's text field, which stands for `english_text` once translated.
- PyText.ParseInt: `int()` is modelled as optional whitespace, an optional sign and ASCII digits. Underscores between digits and non-ASCII decimal digits, which `int()` also accepts, are not modelled.
- PyText.ReadLines: lines end at '\n' only. Text-mode translation of "\r" and "\r\n" is not modelled, so `Sbv.WriteThenParse` is stated only for texts without '\r'.
- The `print` calls and the `__main__` driver with fixed paths (lines 100-105) are output only.
- subtitle_gen.py and youtube_subtitle_gen.py are not part of this model. They wrap speech recognition and silence splitting, and their timestamps come from floating-point seconds.
