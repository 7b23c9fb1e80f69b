# Text index editor: a verified model of its core

`text-index.py` is a DaVinci Resolve script that lists a timeline's text
elements (subtitles, Text+ titles, MultiText layers, Fusion text) in one
table and edits them. This project models the part of it that computes:

- the SMPTE timecode converter (`SMPTE.gettc`, `SMPTE.getframes`), with and
  without drop-frame counting;
- the SRT timestamp of a frame (`frames_to_srt_timecode`) and the SRT file
  that applying the changes writes (`on_apply_changes`, up to the file text),
  both as the code writes them, beside the corrected timestamp (see
  "Findings") and the file it gives;
- the identity scheme of the CSV round trip (`_sanitize_node_name_for_id`,
  `generate_unique_id`);
- the CSV export rows, the import's header check and row folding, and the
  matching of imported rows to clips;
- the clip list of the editor window (`SubtitleEditor`): building it with
  de-duplication (`populate_tree`), the search filter (`filter_tree`),
  replace in one clip and in all listed clips with the replace history,
  punctuation cleanup and the case modes, splitting one subtitle and merging
  several, and applying an import.

Modules, one per file:

| module | file | contents |
|---|---|---|
| `Numbers` | numbers.dfy | Python `round` (ties to even), `int()` of a rational, `%` with a positive modulus, division facts |
| `Strings` | strings.dfy | `str.strip`, `str(int)`, `zfill`, `int()` of a string, slicing, `str.replace`, `str.split`, `" ".join`, line splitting |
| `Timecode` | timecode.dfy | the `Smpte` class and the timecode functions it is proved against |
| `Srt` | srt.dfy | the SRT timestamp as written, and the corrected one |
| `Clips` | clips.dfy | the clip record, the unique ids, the de-duplication of the clip list |
| `Order` | order.dfy | the stable sort by start frame |
| `Csv` | csv.dfy | export rows, import parsing, matching |
| `Transforms` | transforms.dfy | search filter, replace modes, punctuation cleanup, case modes |
| `Edits` | edits.dfy | split and merge, `list.remove` |
| `SrtExport` | srtexport.dfy | the SRT file |
| `Session` | session.dfy | the `SubtitleEditor` class and the loops of its operations |

Modelling choices:

- A clip dictionary is the datatype `Clips.Clip`. A key the scanners may
  leave out is an `Option` field (`edited_text`, `track_idx`, `node_name`,
  `node_id`, `node_path`, `layer_num`). The `"type"` string is the datatype
  `Kind`, and `KindName` gives the string back.
- Frame rates are exact rationals (`real`). Resolve reports rates such as
  29.97 and 23.976, and the converter rounds them (`int(round(fps))`) or
  divides by them. For these decimal rates the rational reading gives the
  same integers as the float code.
- `SMPTE` is a class with its `fps` and `df` fields. `GetTc` and `GetFrames`
  overwrite `fps` with the rounded rate on the non-drop-frame path, as the
  code does. Both are proved against the functions `TimecodeOf` and
  `FramesOf`.
- `getframes` raises `ValueError` in two ways: the rate check, or `int()` on a
  field that is not a number. Both are the error values of a `Result`.
- `SubtitleEditor` is a class holding `allClips` and `history` (the replace
  history). Its invariant is that the list is what `populate_tree` leaves: only
  shown clips, and no two with the same de-duplication key. Each method states
  its whole new state. Each loop of the source is a method that changes
  nothing, proved against a function: `RunReplace`, `RunCleanup`,
  `RunMatches`, `Csv.ParseImport`, `Csv.MatchImport` and `Csv.FindClip`.
- The UI supplies some of the inputs, so they are parameters:
  - the selected row, or the selected rows;
  - whether a dialog was accepted;
  - the marks and case mode picked for the cleanup;
  - the chosen type filters;
  - the current search mode, type filter and match-case setting.
- The list that `filter_tree` keeps (`filtered_clips`) is represented by the
  positions it picks (`Transforms.Filtered`). Replace-all takes those
  positions, or all positions when the list is empty.
- Python's Unicode `lower`, `upper` and `title` are kept abstract, and so is
  the case-insensitive `re` search and substitution. They are fields of the
  `Transforms.TextOps` record. Case-sensitive matching, `strip`, `split`,
  `replace` and the sentence-case pattern are modelled exactly. For the
  pattern, upper-casing a matched a-z or а-я letter is modelled as moving it
  up by 32.
- The drop-frame constants come from the rate, as the code computes them:
  `round(fps * 0.066666)`, `round(fps * 600)` and so on. `BroadcastRates`
  shows that at 29.97 and 59.94 these are the integers of SMPTE ST 12-1
  counting. `DropFrameRate` states the relation between the constants that
  the drop-frame round trip needs.
- At 29.97 the code maps frame 1800 to `00:01:00;02` and frame 17982 to
  `00:10:00;00`. `Timecode.DropFrameExamples` proves these two outputs of the
  code.

## Model

| member | source | states |
|---|---|---|
| `Numbers.Round` | text-index.py:138-139 | Python `round`: the result lies within 0.5 of the argument, and at an exact tie it is even |
| `Numbers.RoundIdempotent` | text-index.py:145 | rounding a rate that is already rounded changes nothing, so the rate the converter stores after its first non-drop-frame call gives the same timebase again |
| `Numbers.EffectiveRate` | text-index.py:1745 | `framerate or fallback`: the given rate, unless it is 0, which gives way to the fallback |
| `Numbers.Trunc` | text-index.py:2974 | `int()` of a rational truncates toward zero: the floor for non-negative values, the next integer up for negative ones |
| `Numbers.PyMod` | text-index.py:1757 | Python `%` with a positive modulus lies in `[0, m)` |
| `Strings.Strip` | text-index.py:2734 | `str.strip()`: no whitespace left at either end, never longer, only characters of the input, empty exactly when the input is all whitespace, and the identity on an already stripped string |
| `Strings.StripIdempotent` | text-index.py:2734 | stripping twice is stripping once |
| `Strings.NatStr` | text-index.py:194-197 | `str(n)`: at least one digit, all digits, one digit exactly below 10, at most 2 below 100 and at most 3 below 1000 |
| `Strings.NatStrValue` | text-index.py:194-197 | the digits of `str(n)` read back as n |
| `Strings.IntStr` | text-index.py:1261 | `str(i)` of any integer: non-empty, made of digits and a minus sign |
| `Strings.Padded` | text-index.py:194-197 | `str(n).zfill(w)`: all digits, w long unless `str(n)` is already longer |
| `Strings.PaddedValue` | text-index.py:194-197 | leading zeros do not change the value: the padded digits read back as n |
| `Strings.PyInt` | text-index.py:129-132 | `int()` of a string of digits is their decimal value |
| `Strings.PyIntPadded` | text-index.py:129-132 | `int()` reads back a zero-padded number |
| `Strings.PyIntIntStr` | text-index.py:1261 | `int(str(i)) == i` for every integer, negative ones included |
| `Strings.IntStrInjective` | text-index.py:1261 | two integers with the same `str` are equal |
| `Strings.Slice` | text-index.py:129-131 | `s[i:j]` with `i <= j <= len(s)` is the subsequence from i up to j |
| `Strings.From` | text-index.py:126 | `s[i:]` within bounds is the suffix from i |
| `Strings.ReplaceAll` | text-index.py:1621 | `str.replace` with a non-empty term: every non-overlapping occurrence, scanning from the left; its properties are the lemmas below |
| `Strings.ReplaceAllAbsent` | text-index.py:1620-1621 | `str.replace` with a term that does not occur returns the text unchanged |
| `Strings.ReplaceAllSelf` | text-index.py:1621 | replacing a term by itself returns the text unchanged |
| `Strings.ReplaceAllConcat` | text-index.py:1621 | when no occurrence of the term straddles the cut, replacing in `a + b` is replacing in `a` followed by replacing in `b`: each occurrence is replaced where it lies |
| `Strings.ReplaceAllCanLeaveTerm` | text-index.py:1621 | the result can still contain the term: removing `"ab"` from `"aabb"` gives `"ab"` |
| `Strings.MapChar` | text-index.py:1246 | a character-for-character substitution keeps the length and changes exactly the positions holding the character |
| `Strings.ReplaceOneChar` | text-index.py:1246 | `str.replace` of a one-character string equals the character substitution |
| `Strings.Words` | text-index.py:2915 | every element of `str.split()` is a non-empty run without whitespace |
| `Strings.WordsOfJoin` | text-index.py:2931-2932 | splitting words joined by single spaces gives the same words back |
| `Strings.WordsConcat` | text-index.py:2915 | `split()` splits at every whitespace character: the words of `a`, a whitespace character and `b` are the words of `a` followed by those of `b` |
| `Strings.Pieces` | text-index.py:2804 | `splitlines` pieces: at least one, none containing a line-break character |
| `Strings.PiecesWithoutBreaks` | text-index.py:2804 | a text without line-break characters is a single line |
| `Timecode.DropFrameDivisorsPositive` | text-index.py:159-163 | for a rate of at least 1 every divisor of the drop-frame computation is positive and the dropped count is not negative |
| `Timecode.Smpte.constructor` | text-index.py:119-121 | a new converter runs at 24 fps, non-drop-frame |
| `Timecode.TimecodeOf` | text-index.py:150-198 | the timecode `gettc` gives at a rate and mode: the frame count without its sign, drop-frame corrected in drop-frame mode, split into hours, minutes, seconds and frames at the rounded rate and written `HH:MM:SS:FF` (`;` before the frames in drop frame); `Smpte.GetTc` is proved against it and `NdfRoundTrip`, `DfRoundTrip` and `FormatLayout` state what it gives |
| `Timecode.FramesOf` | text-index.py:123-148 | the frame count `getframes` reads: the frame field is read and checked against the rate first, then the columns `[0:2]`, `[3:5]`, `[6:8]`; a field that is not a number and a frame field above the rate are errors; `Smpte.GetFrames` is proved against it and `FramesOfFields`, `FrameCounts` and `ReadBack` state what it gives |
| `Timecode.Smpte.GetTc` | text-index.py:150-198 | `gettc` returns the timecode of the converter's rate and mode; on the non-drop-frame path the stored rate becomes the rounded rate, otherwise it is kept, and `df` never changes |
| `Timecode.Smpte.GetFrames` | text-index.py:123-148 | `getframes` returns the frame count or the error of the rate check or of a field that is not a number; a successful non-drop-frame parse stores the rounded rate |
| `Timecode.NdfFieldsMixedRadix` | text-index.py:184-190 | the non-drop-frame fields are the mixed-radix digits of the frame count: minutes and seconds below 60, the frame field below the timebase, and the hours equal to f div 3600R |
| `Timecode.DfFieldsMixedRadix` | text-index.py:174-178 | the drop-frame fields of a corrected count are its mixed-radix digits at the rounded rate |
| `Timecode.FormatLayout` | text-index.py:193-198 | for fields below 100 the timecode has `:` at columns 2 and 5, `;` (drop-frame) or `:` at column 8, and the fixed columns 0-2, 3-5, 6-8 and 9- hold the zero-padded fields |
| `Timecode.FramesOfFields` | text-index.py:126-146 | once the four fields parse and the frame field does not exceed the rate, `getframes` gives the drop-frame or non-drop-frame count of those fields |
| `Timecode.FrameCounts` | text-index.py:137-146 | the drop-frame count is the plain count less the frame numbers dropped before that minute (D for each minute not divisible by 10) |
| `Timecode.ReadBack` | text-index.py:123-148 | a timecode laid out from mixed-radix fields parses back to the count of those fields |
| `Timecode.NdfRoundTrip` | text-index.py:144-190 | non-drop-frame `getframes(gettc(f)) == f` for `0 <= f < 100 * 3600 * R`, both with the rate as given and with the rounded rate gettc stores |
| `Timecode.NdfRoundTripFailsAt100Hours` | text-index.py:187-198 | at 100 hours the hour field takes three digits, so gettc writes `100:00:00:00`, and getframes reading its fixed columns fails on `":00"` |
| `Timecode.RateCheck` | text-index.py:126-127 | getframes fails the rate check exactly when the frame field parses to a number larger than the rate |
| `Timecode.RatePasses` | text-index.py:126-132 | past the rate check, getframes either succeeds or fails only because a field is not a number |
| `Timecode.FrameFieldEqualToRate` | text-index.py:126-127 | a frame field equal to the rate is accepted, so `00:00:00:24` and `00:00:01:00` both read as frame 24 at 24 fps |
| `Timecode.BroadcastRates` | text-index.py:159-163 | at 29.97 the code drops 2 numbers a minute with 17982 frames per ten minutes and 1798 per minute; at 59.94 it drops 4, with 35964 and 3596 |
| `Timecode.DfAdjustInverse` | text-index.py:165-172 | the Duncan/Heidelberger correction maps each frame of a day to a counter value within the day whose count of dropped numbers, subtracted, gives the frame back |
| `Timecode.DfMinute` | text-index.py:166-172 | the corrected value of frame `d * F10 + m` lies in minute `10d + k` at the right offset, and subtracting the numbers dropped before that minute gives the frame back |
| `Timecode.DfRoundTrip` | text-index.py:136-178 | at a drop-frame rate, `getframes(gettc(n))` is `abs(n)` reduced modulo the frames of 24 hours |
| `Timecode.DropFrameExamples` | text-index.py:156-198 | at 29.97 drop-frame, frame 1800 is `00:01:00;02` and frame 17982 is `00:10:00;00` |
| `Timecode.ThirtyCorrected` | text-index.py:159-170 | at an integer rate of 30 the code drops 2 numbers a minute and corrects frame 17999 to 18019 |
| `Timecode.DropFrameNeedsBroadcastRate` | text-index.py:156-178 | with df at 30 fps the constants do not fit together: frame 17999 becomes `00:10:00;19`, which parses back as 18001 |
| `Srt.FormatD` | text-index.py:1760 | `f"{n:02d}"` of a non-negative n is its zero-padded decimal |
| `Srt.SrtTimecode` | text-index.py:1748-1763 | `frames_to_srt_timecode` as written: the given rate or the timeline's, the zero timestamp for a zero rate, otherwise hours, minutes and seconds truncated from the time and the milliseconds rounded from the fractional second alone; `SrtFieldsOfTime`, `MillisecondOverflow`, `OrdinaryTimestamp` and `ZeroRate` state what it gives |
| `Srt.SrtTimestamp` | text-index.py:1748-1763 | the corrected timestamp: the time rounded to whole milliseconds first and then split; `SrtTimestampSound`, `SrtTimestampAgrees` and `SrtTimestampCarries` state what it gives |
| `Srt.SrtFieldsOfTime` | text-index.py:1752-1758 | for a time of t seconds with w whole seconds, the fields are w split into hours, minutes and seconds below 60, and milliseconds rounded from the fraction, between 0 and 1000 inclusive |
| `Srt.MillisecondOverflow` | text-index.py:1758-1760 | as written: frame 1990 at 23.976 fps writes `00:01:22,1000` |
| `Srt.OrdinaryTimestamp` | text-index.py:1748-1760 | frame 1000 at 23.976 fps writes `00:00:41,708` |
| `Srt.ZeroRate` | text-index.py:1761-1763 | with no rate the division raises and the timestamp is `00:00:00,000` |
| `Srt.SrtTimestampSound` | text-index.py:1748-1760 | the corrected timestamp is the time rounded to whole milliseconds, within half a millisecond of the exact time, written with a three-digit millisecond field and minutes and seconds below 60 |
| `Srt.SrtTimestampAgrees` | text-index.py:1753-1760 | wherever the code's millisecond field stays below 1000, the corrected timestamp is the code's timestamp |
| `Srt.SrtTimestampCarries` | text-index.py:1758 | where the code's milliseconds reach 1000, the corrected timestamp carries into the next whole second with 0 ms |
| `Srt.MillisecondCarry` | text-index.py:1758 | corrected: frame 1990 at 23.976 fps writes `00:01:23,000` |
| `Clips.KindOf` | text-index.py:1256 | reading a type string into a kind gives back that string |
| `Clips.SafeChars` | text-index.py:1246 | the character-wise sanitising keeps the length and turns exactly `.`, `/`, `\` and `,` into `_` |
| `Clips.Sanitize` | text-index.py:1242-1246 | `_sanitize_node_name_for_id`: `"Unnamed"` for an empty name, otherwise the chained replaces of `.`, `/`, `\` and `,` by `_`; `SanitizeChars`, `SanitizeIdempotent`, `SanitizeEmpty` and `SanitizeNoComma` state what it gives |
| `Clips.SanitizeChars` | text-index.py:1242-1246 | a non-empty name sanitises to the same length with no `.`, `/`, `\` or `,` left |
| `Clips.SanitizeIdempotent` | text-index.py:1242-1246 | sanitising a sanitised name changes nothing |
| `Clips.SanitizeEmpty` | text-index.py:1244-1245 | an empty name becomes `Unnamed` |
| `Clips.IdPrefix` | text-index.py:1260-1279 | every id starts with `SUB_`, `TEXTPLUS_`, `MULTI_`, `FUSION_` or `UNKNOWN_` |
| `Clips.UniqueId` | text-index.py:1248-1279 | `generate_unique_id`: the family prefix, track and start frame, then the sanitised node name or path and the layer; `UniqueIdNoComma`, `SubtitleIdsInjective`, `SameIdSamePlace` and `FamiliesDisjoint` state what it gives |
| `Clips.SubtitleIdExample` | text-index.py:1260-1261 | a subtitle on track 1 at frame 24 has the id `SUB_1_24` |
| `Clips.TextPlusIdExample` | text-index.py:1263-1266 | a Text+ node named `Title.1` on track 1 at frame 24 has the id `TEXTPLUS_1_24_Title_1` |
| `Clips.FusionIdExample` | text-index.py:1274-1277 | a Fusion node without a path, with no track, at frame 0 has the id `FUSION_0_0_root` |
| `Clips.SanitizeNoComma` | text-index.py:1242-1246 | a sanitised name holds no comma |
| `Clips.UniqueIdNoComma` | text-index.py:1248-1279 | no id holds a comma, so every id is a CSV-safe field |
| `Clips.SubtitleIdsInjective` | text-index.py:1260-1261 | two subtitles share an id exactly when they share track and start frame |
| `Clips.SameIdSamePlace` | text-index.py:1248-1279 | two clips of one id family with the same id share track and start frame |
| `Clips.FamiliesDisjoint` | text-index.py:1260-1279 | clips of different id families never share an id |
| `Clips.SanitizedNamesCollide` | text-index.py:1264-1266 | the sanitiser is not injective: Text+ nodes named `a.b` and `a_b` at one place get the same id |
| `Clips.DedupKey` | text-index.py:2137-2142 | the key `populate_tree` files a clip under: the node id of a Text+ clip, the track, start, node name and layer of a MultiText clip, and the track, start and text of any other clip |
| `Clips.Shown` | text-index.py:2170-2174 | the list shows a clip's start unless the conversion raises, which it does for a rate rounding to 0, except for a clip at frame 0 of a timeline starting at `00:00:00:00` |
| `Clips.KeepNew` | text-index.py:2134-2204 | the scan of `populate_tree` with the keys already taken; `KeepNewSnoc`, `KeepNewSound`, `KeepNewComplete` and `KeepNewIdentity` state what it gives |
| `Clips.Populated` | text-index.py:2123-2207 | the list `populate_tree` builds, the scan from no keys; `PopulatedProperties` states what it gives |
| `Clips.KeepNewSnoc` | text-index.py:2134-2204 | scanning one more clip appends it exactly when it is shown and its key is new |
| `Clips.KeepNewSound` | text-index.py:2134-2204 | the kept clips are shown, come from the scan, have keys new to the seen set, and have pairwise distinct keys |
| `Clips.KeepNewComplete` | text-index.py:2144-2146 | every shown clip of the scan has its key taken, by itself or by an earlier clip |
| `Clips.KeepNewIdentity` | text-index.py:2134-2204 | an already de-duplicated list of shown clips is kept as it is |
| `Clips.PopulatedProperties` | text-index.py:2123-2207 | populate_tree keeps shown clips from the scan with distinct keys, represents every shown key, and is idempotent |
| `Clips.FirstOfKeyWins` | text-index.py:2144-2146 | of two clips with the same key the first wins |
| `Order.InsertPermutes` | text-index.py:2792 | inserting by start frame adds exactly the inserted clip |
| `Order.InsertStable` | text-index.py:2792 | inserting keeps the order among clips with the same start frame and puts the new one after them |
| `Order.InsertSorted` | text-index.py:2792 | inserting into a list sorted by start frame keeps it sorted |
| `Order.SortByStartSpec` | text-index.py:2792 | the sort by start frame is sorted, is a permutation, and is stable |
| `Csv.DisplayTimecode` | text-index.py:1744-1746 | the timecode of a clip's start: defined exactly when the rate rounds to at least 1, and then the non-drop-frame gettc |
| `Csv.ExportRow` | text-index.py:2685-2693 | the row `on_export_csv` writes for a clip, or none where its timecode raises; `ExportRowContents` states its fields |
| `Csv.ExportedClips` | text-index.py:2668-2669 | every exported clip is a Text+, MultiText or Subtitle clip, and there are no more of them than clips; `ExportedMembers` and `ExportedConcat` state which and in what order |
| `Csv.ExportedMembers` | text-index.py:2668-2669 | the exported clips are exactly the list's Text+, MultiText and Subtitle clips |
| `Csv.ExportedConcat` | text-index.py:2668-2669 | the comprehension keeps list order and multiplicity: it distributes over concatenation and keeps one clip exactly when it is a Text+, MultiText or Subtitle clip |
| `Csv.Export` | text-index.py:2662-2698 | `on_export_csv` without the file dialog: no data, no text clips, an error from a row, or the header and rows; `ExportOutcomes` states which |
| `Csv.ExportRowContents` | text-index.py:2685-2693 | a row has the five header columns: the clip's id, type string, text, shown text and start timecode; the row fails exactly when the timecode conversion raises |
| `Csv.ExportRowsShape` | text-index.py:2684-2694 | the rows are one per clip, in clip order, and the export fails exactly when some clip's row fails |
| `Csv.ExportOutcomes` | text-index.py:2662-2694 | an empty list gives "no data", a list with no Text+/MultiText/Subtitle clip gives "no text clips", and a table has the fixed header and the rows of the exported clips |
| `Csv.Insert` | text-index.py:2738-2742 | `import_data[uid] = ...`: the entry is set, an existing key keeps its place and a new key goes last |
| `Csv.MissingColumns` | text-index.py:2730 | the missing columns are exactly the required ones absent from the header |
| `Csv.Fold` | text-index.py:2733-2745 | the row loop of `parse_import_csv`: a row with a blank id is skipped, any other row is filed under its stripped id, and a missing field raises and ends the import; `FoldErrorStays`, `FoldKeys`, `FoldLastWins`, `FoldOrder`, `FoldSucceeds` and `FoldKeyed` state what it gives |
| `Csv.Parse` | text-index.py:2708-2745 | `parse_import_csv` after the reader is set up: the header check, then the row loop; `ParseHeaderChecks`, `ParseMissingUniqueId` and `ParseMissingAll` state its errors |
| `Csv.ParseImport` | text-index.py:2728-2743 | the import loop returns the result of the header check and the row fold |
| `Csv.FoldErrorStays` | text-index.py:2733-2745 | once a row raises, the whole import fails with that error |
| `Csv.ParseHeaderChecks` | text-index.py:2728-2732 | an empty header is the error "CSV file is empty or has no headers"; a header missing a required column is an error; a complete header gives the row fold |
| `Csv.ParseMissingUniqueId` | text-index.py:2730-2732 | a header lacking only `unique_id` gives "Missing required columns: unique_id" |
| `Csv.ParseMissingAll` | text-index.py:2730-2732 | a header lacking all three required columns names them in order, comma-separated |
| `Csv.FoldKeys` | text-index.py:2733-2742 | a successful fold files an entry exactly for the keys of rows with a non-empty stripped id |
| `Csv.FoldLastWins` | text-index.py:2738-2742 | a key's entry comes from its last row |
| `Csv.FoldOrder` | text-index.py:2733-2742 | the dictionary keeps keys in the order of their first rows |
| `Csv.FoldSucceeds` | text-index.py:2733-2742 | rows that carry the id and text fields fold without an error |
| `Csv.ReadBackRow` | text-index.py:2685-2693 | an exported row read back files, under the clip's id, the stripped shown text, the type string and the original text |
| `Csv.ReadBackUntrimmed` | text-index.py:2734 | a clip whose id ends in whitespace reads back under the stripped id, never under its own |
| `Csv.ReadBackRows` | text-index.py:2684-2694 | row by row, the exported rows read back file each clip's id and entry |
| `Csv.FoldReadBack` | text-index.py:2733-2742 | folding the exported rows files exactly the exported ids, and the last clip of each id gives its entry |
| `Csv.ExportImportRoundTrip` | text-index.py:2680-2694 | the exported header passes the import's column check, so importing the export by `edited_text` is the fold of its rows |
| `Csv.FirstMatchFrom` | text-index.py:2762-2768 | the first clip from k on that passes the filters and has the id, or none at all |
| `Csv.MatchImport` | text-index.py:2755-2771 | the nested match loop gives the matched clips and the unmatched ids of the matching function |
| `Csv.FindClip` | text-index.py:2762-2770 | the inner loop with its `continue` and `break` finds exactly the first admitted clip with the id |
| `Csv.MatchAll` | text-index.py:2747-2772 | `match_clips_with_import`: for each imported id in file order, the first clip of an allowed type with that id, or the id as not found; `MatchSound`, `MatchComplete` and `MatchIndicesDistinct` state what it gives |
| `Csv.MatchSound` | text-index.py:2747-2772 | every match is the first admitted clip with the id of a considered entry, with its new text; every unmatched id is a considered entry with no admitted clip |
| `Csv.MatchComplete` | text-index.py:2755-2771 | every considered entry is matched to its first admitted clip or listed as not found |
| `Csv.MatchIndicesDistinct` | text-index.py:2755-2771 | distinct keys never match the same clip |
| `Transforms.Filtered` | text-index.py:2219-2276 | filter_tree keeps exactly the positions of visible clips, in increasing order |
| `Transforms.FilterTree` | text-index.py:2213-2277 | the list `filter_tree` leaves is empty exactly when the timeline rate rounds below 1 (the timecode of the first visible clip raises) or no clip is visible, and is otherwise the visible positions of `Filtered` |
| `Transforms.Visible` | text-index.py:2219-2243 | filter_tree's test of a clip: the type filter, and the lowered shown text against the lowered term in the search mode; `ModesNested` and `EmptySearchFiltersByType` state what it gives |
| `Transforms.ModesNested` | text-index.py:2229-2236 | an exact match is a prefix and a suffix match, and each of those is a containment match |
| `Transforms.EmptySearchFiltersByType` | text-index.py:2221-2238 | with no search text a clip is visible exactly when its type passes, and every clip passes "All" |
| `Transforms.DropLast` | text-index.py:1644 | `text[:-n]` drops the last n characters, or leaves nothing when n exceeds the length |
| `Transforms.NewText` | text-index.py:1618-1645 | the text each mode writes: `str.replace` or the case-insensitive substitution, the replacement, the replacement and the rest after the term, or the text without the term's length and the replacement; the rewrite lemmas below state what it gives |
| `Transforms.RewriteAll` | text-index.py:1615-1645 | replace-all writes a clip's new text exactly when the mode's test passes |
| `Transforms.RewriteSingle` | text-index.py:1537-1564 | single replace writes like replace-all, except that Contains writes without testing; `SingleAgreesWithAll` relates the two |
| `Transforms.ExactRewrite` | text-index.py:1629-1633 | Exact with match case replaces a text equal to the term by the replacement, and leaves others alone; replacing back restores it |
| `Transforms.StartsWithRewrite` | text-index.py:1635-1639 | Starts With fires exactly on texts with the term as prefix and writes the replacement followed by the rest; replacing back restores the text |
| `Transforms.EndsWithRewrite` | text-index.py:1641-1645 | Ends With fires exactly on texts with the term as suffix and writes the text without it followed by the replacement; replacing back restores the text |
| `Transforms.ContainsRewrite` | text-index.py:1618-1622 | Contains with match case fires exactly where the term occurs and replaces every non-overlapping occurrence |
| `Transforms.SingleAgreesWithAll` | text-index.py:1537-1564 | single replace writes what replace-all writes wherever replace-all fires, in every mode but Contains always, and Contains writes the text unchanged where no occurrence is found |
| `Transforms.RemoveMarks` | text-index.py:2312-2314 | removing the marks leaves no mark and only characters of the text |
| `Transforms.RemoveMarksConcat` | text-index.py:2314 | mark removal works piece by piece, so the order of the kept characters is preserved |
| `Transforms.RemoveMarksKeeps` | text-index.py:2314 | a text with no marks is unchanged |
| `Transforms.CleanPunctuation` | text-index.py:2310-2315 | the cleaned text holds no selected mark and no whitespace at its ends |
| `Transforms.CleanPunctuationIdempotent` | text-index.py:2310-2315 | cleaning a cleaned text changes nothing |
| `Transforms.UpperChar` | text-index.py:2352 | upper-casing keeps a letter a letter and leaves capitals, stops and whitespace as they are |
| `Transforms.SentenceCase` | text-index.py:2347-2352 | `sentence_case`: strip, then upper-case each letter at the start or after a stop and whitespace; `SentenceCaseChars` states what it gives |
| `Transforms.Cleaned` | text-index.py:2333-2353 | a subtitle's cleaned text: the marks removed when some are chosen, then the case mode; `Session.CleanedClipEffect` and `Session.CleanMarksTwice` state what it gives |
| `Transforms.SentenceCaseChars` | text-index.py:2347-2352 | sentence case keeps the stripped text's length and upper-cases exactly the letters at its start or after a stop and whitespace, copying every other character |
| `Edits.RemoveFirst` | text-index.py:2951 | `list.remove` shortens the list by one |
| `Edits.RemoveFirstCount` | text-index.py:2951 | `list.remove` takes exactly one copy of the clip out |
| `Edits.RemoveEachCount` | text-index.py:2989-2990 | removing each merged clip in turn takes exactly those clips out |
| `Edits.SplitIndex` | text-index.py:2920-2929 | a stripped position that lower-cases to auto gives the middle word n // 2; any other accepted position is a number from 1 to n-1; a refusal is "Invalid split position" |
| `Edits.SplitIndexNumber` | text-index.py:2923-2929 | a position other than auto is accepted exactly when `int()` reads it as a number from 1 to n-1, and that number is the index |
| `Edits.SplitWords` | text-index.py:2931-2932 | cutting the words at an inner index gives two non-empty, already stripped sides that join with a space to the whole and split back into the two halves of the words |
| `Edits.SplitWithOutcome` | text-index.py:2931-2936 | a cut succeeds exactly at an inner index, and then gives the two halves with the joined words |
| `Edits.HalveFrames` | text-index.py:2938-2949 | the halves cover start to mid and mid to end with `mid = start + (end - start) // 2`, carry their own texts as text and shown text, and copy every other field |
| `Edits.SplitClip` | text-index.py:2912-2949 | `split_subtitle` on one clip: the split index, the two word halves and the two frame halves, or the message that stops it; `SplitOutcome`, `SplitHalves` and `AutoSplit` state what it gives |
| `Edits.SplitOutcome` | text-index.py:2912-2936 | the split succeeds exactly for a subtitle with words at a valid index; a subtitle without words gives "Empty subtitle text" |
| `Edits.SplitHalves` | text-index.py:2914-2949 | the two texts joined by a space give the words joined by spaces, and their words together are the original words |
| `Edits.AutoSplit` | text-index.py:2920-2921 | auto on a subtitle of two or more words succeeds, with the first half holding the first `n // 2` words |
| `Edits.FirstWideGap` | text-index.py:2974-2979 | the index of the first neighbour whose gap to the clip before it exceeds the maximum, every earlier gap being within it; none exactly when every gap is within it |
| `Edits.ShownTexts` | text-index.py:2981 | the shown text of each clip, in order |
| `Edits.MergeClips` | text-index.py:2959-2987 | `merge_subtitles` on the selected clips: too few, not all subtitles, a gap wider than `int(2 * fps)` frames, or the merged clip; `MergeOutcome`, `MergeGapMessage` and `MergeResult` state what it gives |
| `Edits.MergeGapMessage` | text-index.py:2974-2979 | a merge refused for a gap names, in its message, the gap of the first too distant neighbour in start order |
| `Edits.MergeOutcome` | text-index.py:2959-2979 | merge is refused with fewer than two clips or with a non-subtitle, and succeeds exactly when all gaps in start order are within `int(2 * fps)` |
| `Edits.MergeResult` | text-index.py:2972-2987 | the merged clip is a subtitle starting at the earliest start and ending at the end of the last clip in start order, its text is the shown texts joined by spaces, and every other field is the first clip's |
| `SrtExport.Subtitles` | text-index.py:2791 | the comprehension keeps only subtitle clips; `SubtitlesCount` and `SubtitlesConcat` state which and in what order |
| `SrtExport.SubtitlesCount` | text-index.py:2791 | every subtitle clip of the list is kept as often as the list holds it, and no other clip |
| `SrtExport.SubtitlesConcat` | text-index.py:2791 | the comprehension keeps list order: it distributes over concatenation and keeps one clip exactly when it is a subtitle |
| `SrtExport.WrittenClips` | text-index.py:2791-2792 | the file holds every subtitle clip as often as the list does and nothing else, sorted by start frame and stable |
| `SrtExport.NonBlank` | text-index.py:2804 | the kept lines are lines of the text that are not blank after stripping; `NonBlankConcat` and `NonBlankKeeps` state which and in what order |
| `SrtExport.NonBlankConcat` | text-index.py:2804 | the comprehension keeps line order and multiplicity: it distributes over concatenation and keeps one line exactly when it is not blank |
| `SrtExport.PiecesMapBreak` | text-index.py:2803 | turning U+2028 or U+2029 into a newline does not move a line break |
| `SrtExport.PiecesOfJoin` | text-index.py:2804-2805 | lines without breaks joined by newlines split back into the same lines |
| `SrtExport.NonBlankKeeps` | text-index.py:2804 | non-blank lines are all kept |
| `SrtExport.BlockTextPlain` | text-index.py:2803-2805 | the block text is the non-blank lines joined by newlines |
| `SrtExport.BlockTextLines` | text-index.py:2803-2805 | the block text is empty when every line is blank, and otherwise splits into exactly the non-blank lines |
| `SrtExport.BlockTextIdempotent` | text-index.py:2803-2805 | normalising a block text again changes nothing |
| `SrtExport.Block` | text-index.py:2796-2809 | one block: its number, the start and end stamps of the frames relative to the timeline start, clamped at 0, at the clip's rate, and the block text; `BlockTimes` and `BlockAgrees` state what it gives |
| `SrtExport.SrtFile` | text-index.py:2790-2810 | the file: the blocks of the written clips numbered from 1, concatenated; `SrtFileBlocks`, `NoSubtitlesEmptyFile` and `FileAgrees` state what it gives |
| `SrtExport.SrtFileBlocks` | text-index.py:2790-2810 | the file has one block per subtitle clip, and block i is numbered i + 1 and made from the i-th clip in start order, with the timestamps `frames_to_srt_timecode` writes (or, for the corrected file, the corrected ones) |
| `SrtExport.NoSubtitlesEmptyFile` | text-index.py:2791-2810 | a list without subtitles writes an empty file |
| `SrtExport.TotalMillisMono` | text-index.py:1752-1758 | more frames never give fewer milliseconds |
| `SrtExport.BlockTimes` | text-index.py:2796-2801 | at a positive rate the corrected stamps of a block are its start and end frames relative to the timeline start, clamped at 0, rounded to whole milliseconds; the written stamps are the same wherever the code's millisecond field stays below 1000; a block that ends no earlier than it starts is timed in order |
| `SrtExport.BlockAgrees` | text-index.py:2796-2801 | a block whose two millisecond fields stay below 1000, or whose rate is 0, is written exactly as the corrected block |
| `SrtExport.FileAgrees` | text-index.py:2790-2810 | when every subtitle's stamps fit, the file the code writes is the corrected file |
| `SrtExport.ApplyFile` | text-index.py:2773-2810 | the text `on_apply_changes` writes to the SRT file, or the error that stops it first; `ApplyFileOutcome` states which |
| `SrtExport.ApplyFileOutcome` | text-index.py:2773-2810 | an empty list writes nothing; otherwise the file is written exactly when the start timecode (or `00:00:00:00`) parses, and it is then the as-written file of blocks timed from that start frame |
| `Session.RepopulateAfterTextEdits` | text-index.py:2365 | after only shown texts have changed, repopulating gives back the same list |
| `Session.RemoveAt` | text-index.py:2951 | in a list with distinct keys, removing the clip at i removes that position |
| `Session.ReplaceFold` | text-index.py:1608-1652 | the replace-all loop over listed positions keeps the list's length; `ReplaceFoldEffect` states its clips and count |
| `Session.ReplaceFoldEffect` | text-index.py:1608-1652 | replace-all over distinct positions rewrites the shown text of each listed clip that passes, leaves every other clip alone, and counts the rewrites |
| `Session.Hits` | text-index.py:1647-1649 | the count never exceeds the number of processed clips |
| `Session.HitsZero` | text-index.py:1664-1665 | no clip is rewritten exactly when no processed clip passes |
| `Session.CleanAll` | text-index.py:2331-2356 | the cleanup keeps the list's length; `CleanAllEffect` states its clips |
| `Session.CleanedClipEffect` | text-index.py:2332-2356 | a subtitle shows its cleaned text afterwards, another clip is untouched, and a clip changes exactly when its cleaned text differs |
| `Session.CleanAllEffect` | text-index.py:2331-2356 | after the cleanup only shown texts changed, every subtitle shows its cleaned text, other clips are as they were, and the count is 0 exactly when nothing changed |
| `Session.ChangedNone` | text-index.py:2354-2356 | the count is 0 exactly when no clip changes |
| `Session.CleanMarksTwice` | text-index.py:2336-2337 | removing the same marks a second time changes nothing and counts 0 |
| `Session.PickedWithin` | text-index.py:2964-2970 | distinct selected rows pick clips that the list holds, each at most as often as the list holds it |
| `Session.ApplyMatches` | text-index.py:686-687 | applying the matches keeps the list's length; `ApplyMatchesEffect` states its clips |
| `Session.ApplyMatchesEffect` | text-index.py:686-687 | applying matches with distinct clips sets each matched clip's shown text and leaves every other clip and field alone |
| `Session.ImportEffect` | text-index.py:682-687 | a considered entry with an admitted clip sets the shown text of its first such clip |
| `Session.RunReplace` | text-index.py:1610-1652 | the replace-all loop gives the rewritten list and the count of the replace-all function |
| `Session.CleanOne` | text-index.py:2332-2356 | one cleanup step gives the cleaned clip and whether it changed |
| `Session.RunCleanup` | text-index.py:2331-2356 | the cleanup loop gives the cleaned list and the count of changed clips |
| `Session.RunMatches` | text-index.py:686-687 | the apply loop gives the list with the matched texts set |
| `Session.SubtitleEditor.constructor` | text-index.py:703-720 | a new editor has no clips and no replace history |
| `Session.SubtitleEditor.Populate` | text-index.py:2123-2207 | the list becomes the de-duplicated shown clips of the scan |
| `Session.SubtitleEditor.ReplaceSingle` | text-index.py:1511-1581 | an empty term or no selection changes nothing with its message; otherwise the selected clip gets the mode's rewrite, or nothing changes with the mode's message |
| `Session.SubtitleEditor.ReplaceAll` | text-index.py:1582-1682 | an empty term or a declined confirmation changes nothing; otherwise the listed clips, or all clips, are rewritten, the count returned, and exactly one history entry appended with the raw search text, the replacement, the count text, the mode and the match-case flag |
| `Session.SubtitleEditor.CleanPunctuation` | text-index.py:2317-2365 | refused with no subtitle, a cancelled dialog or nothing selected; otherwise the list becomes the cleaned list and the count is the number of changed subtitles |
| `Session.SubtitleEditor.Split` | text-index.py:2881-2956 | each refusal leaves the list with its message; a split removes the clip, appends the two halves, repopulates, and reports the middle frame |
| `Session.SubtitleEditor.Merge` | text-index.py:2958-2995 | a refusal leaves the list with its message; a merge removes the selected clips, appends the merged clip, repopulates, and reports the number merged |
| `Session.SubtitleEditor.DoImport` | text-index.py:674-690 | the import fails with nothing changed without data, filters or matches; otherwise every matched clip shows its new text |

## Left out

- Qt: the windows, dialogs, tree rendering, tooltips, highlighting, shortcuts
  and the editing delegate are left out. The dialogs' answers are parameters;
  status texts outside the modelled operations are not modelled.
- Resolve host calls: scanning the timeline for clips, writing a text back to
  a Text+ or MultiText node (`update_text_plus_clip`), markers, reading the
  timeline rate, and the media pool import, track and append half of
  `on_apply_changes`. These are calls into the host program. The timeline is
  the parameter `Clips.Timeline` (rate and start timecode). The SRT text is
  the result of `SrtExport.ApplyFile`; the temporary file is not modelled.
- Spell checking (a network client on a thread), the FCPXML reader and
  `fraction_to_smpte`: these are not part of this model.
- The csv module: dialect sniffing, quoting, delimiters and file reading and
  writing. A row is a map from column to field, and a short row's missing
  field is `None`. An exception raised while reading the file is not modelled.
  An error raised inside the row loop is kept, in the form `strip` on a
  missing field raises it.
- The `datetime` timestamp of a history entry is a parameter.
- Python's Unicode `lower`, `upper`, `title` and the case-insensitive regular
  expressions are uninterpreted functions, so no property is stated about
  their output.
- Negative frame rates are outside the model. The display timecode is defined
  for rates that round to at least 1. For a rate that rounds to 0 the
  converter raises. The list then skips the clip, unless it starts at frame 0
  on a timeline starting at `00:00:00:00`, where the list shows that
  timecode without converting. A listed clip like that makes the whole CSV
  export fail (`Csv.Export` gives `ExportFailed`). A timeline rate like that
  makes `filter_tree` raise at its first visible clip and leaves the filtered
  list empty (`Transforms.FilterTree`), so a later replace-all goes over every
  clip.
- `Fraction.from_float(...).limit_denominator()` is taken as the exact rate.
  This holds for the decimal rates Resolve reports.
- `int()` of a string is modelled for ASCII digits with an optional sign and
  surrounding whitespace. Python also accepts other Unicode digits and `_`
  separators.
- The filtered list is represented by positions into the clip list. Replace-all
  takes these positions. The cleanup's reset of the search filter is UI state
  and is left out.
- The tree's display sort by timecode column affects only the view, not the
  clip list.
- The drop-frame constants follow the code's rounding of the rate, not a fixed
  integer timebase. The drop-frame round trip is proved for every rate at
  which those constants fit together (`Timecode.DropFrameRate`), which covers
  29.97 and 59.94. At an integer rate such as 30 they do not fit, as
  `Timecode.DropFrameNeedsBroadcastRate` shows.
- `Session.SubtitleEditor.ReplaceAll`: `filtered_clips` is reset only by
  `filter_tree`, not by `populate_tree`. After a split or a merge it can still
  hold clip dicts that the clip list no longer contains. Replace-all then
  rewrites and counts such a removed clip and skips the new halves. Positions
  into the clip list cannot express this, so the model assumes the filtered
  list names clips of the current list.
- `Transforms.NewText`: the case-insensitive substitution `iSub` is total. In
  Python, `pattern.sub` reads the replacement as a template, so a replacement
  such as `\d`, `\1` or a trailing backslash raises `re.error`. That error path
  is not modelled. In single replace the operation would stop there. In
  replace-all, the clips before that point would already be rewritten, with
  no repopulation and no history entry.
- `Csv.FoldReadBack`: stated only for exported clips whose id has no
  whitespace at its ends (`Csv.TrimmedId`). For an untrimmed id the fold files
  the stripped id, which is not the id exported, as `Csv.ReadBackUntrimmed`
  states.
- `Csv.ExportImportRoundTrip`, `Csv.ReadBackRow`, `Csv.ReadBackRows`:
  the round trip is proved for clips whose id has no whitespace at its ends
  (`Csv.TrimmedId`). A Text+ or MultiText node name ending in whitespace
  (`"Title "`) is kept by the sanitiser. The import strips the id, so that
  row is reported not found. `Csv.ReadBackUntrimmed` states this.
- `Session.SubtitleEditor.ReplaceSingle`, `Split`, `Merge`: the row data
  (`item.data(0, Qt.UserRole)`) is taken to be the very dict held in the clip
  list. Qt bindings may hand back a converted copy, and a write to it would
  then not reach the clip list. The model does not capture that.
- `Session.SubtitleEditor.ReplaceSingle`, `ReplaceAll`, `CleanPunctuation`,
  `Split`, `Merge` and `DoImport` state their new clip list. They do not state
  the status texts of the branches outside the modelled messages, nor the
  write to the Resolve host.

## Findings

| source | as written | input that shows it | evidently intended | confidence | as-written member | corrected member |
|---|---|---|---|---|---|---|
| text-index.py:1758 | the milliseconds are rounded from the fractional second alone, so they can round up to 1000 while the seconds field stays | frame 1990 at 23.976 fps (1990 / 23.976 = 82.9997 s) gives `00:01:22,1000` | round the whole time to milliseconds first and carry into the seconds: `00:01:23,000` | not executed | `Srt.MillisecondOverflow` | `Srt.MillisecondCarry` |
