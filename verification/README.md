# EBU STL subtitles, modelled in Dafny

This project models the subtitle path of FFmpeg's EBU STL reader (EBU Tech
3264) as pure functions over byte sequences, and proves properties of it.
It covers two sides:

- the demuxer (`libavformat/ebustldec.c`): signature probe, header skip,
  cutting the body into 128-byte Text and Timing Information (TTI) blocks,
  and turning the start and end timecodes of each block into a
  presentation time and a duration;
- the decoder (`libavcodec/ebustldec.c`): the ISO/IEC 6937 to UTF-8
  transcoder, the per-line colour scanner, the ASS markup builder, the
  alignment tag, and the loop that makes one ASS rectangle per complete
  block with a running read order.

Modules, one per part of the program:

| module | file | what it holds |
|---|---|---|
| `Wrappers` | wrappers.dfy | `Option` and `Result` |
| `Tti` | tti.dfy | bytes, block layout constants, splitting text at the 0x8A newline code |
| `Timecode` | timecode.dfy | timecode to milliseconds, with its inverse on nominal timecodes |
| `Demuxer` | demuxer.dfy | probe (as written and corrected), header skip, packet reading |
| `Iso6937` | iso6937.dfy | diacritic table, transcoder, and the conversion into a sized buffer |
| `Colors` | colors.dfy | colour scan of line `k`, the three colour tag tables |
| `Markup` | markup.dfy | the text pass (functional, as a loop with its line buffer, and as written with the undersized conversion) and its line-by-line meaning |
| `Decoder` | decoder.dfy | alignment, final rectangle text, decoding a packet into a frame |
| `Pipeline` | pipeline.dfy | demuxer and decoder together, read order carried between calls |

Output text is a Dafny `string` that holds one output byte per character.
Tags are ASCII. A transcoded letter is its two UTF-8 bytes.

Where the code and its documentation part ways, the model follows the code:

- The text pass starts at offset 13, but the colour scan starts at 16. So
  the vertical position, the justification code and the comment flag are
  read as text when they are 0x20 or above (`Markup.HeaderBytesAsTextExample`).
- The colour scan does not stop at the end-of-text code 0x8F
  (`Markup.ColorsPastEndOfTextExample`).
- The markup always begins with the first line's colour tags, so the
  decoder's "ignore empty subtitles" branch can only fire on an allocation
  failure. A block whose text is only 0x8F still yields a rectangle
  holding the colour tags (`Markup.EndOfTextFirstExample`).
- The text colour table used for every line after the first has red and
  blue exchanged (codes 1 and 4), while the first line's table matches the
  colour names in the code's own diagnostics. The model keeps both tables as
  written and proves the difference (`Colors.LaterTextTableSwapsRedAndBlue`).
- Vertical positions below 8 give numpad codes 7 to 9. Those are the top row
  of ASS alignment, although the code's comment calls them "bottom". Teletext
  rows count from the top of the screen, so the value agrees with the
  format; only the comment is off (`Decoder.AlignmentMeaning`).

## Model

| member | source | states |
|---|---|---|
| Timecode.ToPts | libavformat/ebustldec.c:37-44 | for all byte values the result lies in [-36,000,000, 897,565,200], inside the 64-bit range the code computes in; an hour byte of 10 or more gives a non-negative time, and a nominal timecode below hour 10 a negative one |
| Timecode.BiasExamples | libavformat/ebustldec.c:43 | 10:00:00:00 is 0 ms, 10:00:05:00 is 5000 ms, 09:59:59:24 is -40 ms |
| Timecode.ToPtsStrictlyIncreasing | libavformat/ebustldec.c:39-43 | raising any single byte of the timecode, the others fixed, strictly raises the result |
| Timecode.FromPtsOfToPts | libavformat/ebustldec.c:37-44 | on nominal timecodes (hour ≥ 10, minutes and seconds < 60, frames < 25) the result is a whole number of 40 ms frames, and decomposing it gives the timecode back |
| Timecode.UncheckedFieldsAlias | libavformat/ebustldec.c:39-43 | fields are not range-checked: 10:00:60:00 and 10:01:00:00 give the same time |
| Demuxer.ProbeWithGuard | libavformat/ebustldec.c:13-20 | with any size guard up to 6: a successful probe scores the maximum exactly when bytes 3 to 5 are "STL" and 0 otherwise; a failure names a read at or past the buffer's end |
| Demuxer.ProbeAsWritten | libavformat/ebustldec.c:13-20 | the guard `< 5` lets exactly the 5-byte buffers with "ST" at offsets 3 and 4 read index 5, past the data; every other buffer is scored correctly |
| Demuxer.Probe | libavformat/ebustldec.c:13-20 | with the guard at 6 no read goes past the data, and the maximum score is given exactly to buffers carrying the signature |
| Demuxer.ProbeOffByOne | libavformat/ebustldec.c:15-17 | the 5-byte buffer 00 00 00 'S' 'T' reads past the end as written and scores 0 when corrected |
| Demuxer.ReadPacket | libavformat/ebustldec.c:46-64 | a read fails (end of file) exactly when fewer than 128 bytes remain; otherwise the packet is those 128 bytes, its pts is the start timecode at offset 5, pts plus duration is the end timecode at offset 9, and reading moves on by 128 |
| Demuxer.ReadFromChunks | libavformat/ebustldec.c:46-64 | the packets read from a position are the consecutive 128-byte chunks of the rest, as many as fit |
| Demuxer.PacketStamps | libavformat/ebustldec.c:58-61 | every packet read is a full block stamped with its own start time, and its duration reaches its own end time |
| Demuxer.ReadFrom | libavformat/ebustldec.c:46-64 | reading packets in turn from a position gives none exactly when fewer than 128 bytes remain there, and every packet it gives is a complete 128-byte block |
| Demuxer.Packets | libavformat/ebustldec.c:33-64 | after the seek past the 1024-byte header, a file gives no packet exactly when it ends before the first complete block, and every packet is a complete block |
| Demuxer.PacketsOfFile | libavformat/ebustldec.c:33-61 | a file gives one packet per complete block after the 1024-byte header (none when it ends inside the header), packet `i` is block `i`, and fewer than 128 trailing bytes are dropped |
| Iso6937.MapIso6937ToUtf8 | libavcodec/ebustldec.c:75-137 | a pair is mapped exactly when the precomposed-letter table has it; the result is two UTF-8 bytes led by 0xC3 that decode to the table's letter |
| Iso6937.Precomposed | libavcodec/ebustldec.c:75-137 | every letter the diacritic table gives lies in the upper half of Latin-1, U+00C0 to U+00FF, so its UTF-8 form is two bytes |
| Iso6937.PrecomposedDomain | libavcodec/ebustldec.c:75-137 | the mapped pairs are exactly grave, acute, circumflex and diaeresis (0xC1, 0xC2, 0xC3, 0xC8) over AEIOU and aeiou |
| Iso6937.Transcode | libavcodec/ebustldec.c:144-164 | the output has exactly as many bytes as the input, each below 256, so never more than the input |
| Iso6937.TranscodeWithoutDiacritics | libavcodec/ebustldec.c:145-164 | input without bytes 0xC1 to 0xCF, all ASCII among it, is copied unchanged |
| Iso6937.TranscodeMappedPair | libavcodec/ebustldec.c:149-158 | a mapped pair in front is replaced by its UTF-8 letter and the rest transcoded on its own |
| Iso6937.TranscodeExamples | libavcodec/ebustldec.c:145-164 | acute and 'e' give C3 A9; a lone trailing diacritic and an unmapped pair are copied |
| Iso6937.ConvertIntoBuffer | libavcodec/ebustldec.c:139-168 | filling a buffer of a given capacity succeeds exactly when the input is shorter than the capacity (the terminator included), and then yields the transcoded text; otherwise the first write out of bounds is at the capacity |
| Iso6937.ConvertAsWritten | libavcodec/ebustldec.c:139-168 | with the code's `length * 4` buffer the conversion goes out of bounds exactly for empty input, writing the terminator at index 0 |
| Iso6937.Convert | libavcodec/ebustldec.c:139-168 | with one byte more the conversion never goes out of bounds and yields the transcoded text |
| Colors.ApplyAllLastCodeWins | libavcodec/ebustldec.c:198-227 | on one line the last text code 0x00 to 0x07 sets the text colour and the last background code 0x10 to 0x17 the background (code & 7); without one the colour stays |
| Colors.ScanFrom | libavcodec/ebustldec.c:179-229 | on line `k`, bytes without a newline code are all applied to the colours; when line `k` lies beyond the newline codes still to come, the scan ends at white on black |
| Colors.ExtractColors | libavcodec/ebustldec.c:174-232 | with no 0x8A in offsets 16 to 127, the first line's colours are all the field's colour codes applied to white on black; a line past the field's last 0x8A keeps white on black |
| Colors.ScanMatchesLines | libavcodec/ebustldec.c:179-229 | the scan loop, run from any line, agrees with applying the bytes of line `k` of the rest to the defaults |
| Colors.ExtractColorsByLine | libavcodec/ebustldec.c:174-232 | what `ExtractColors` computes: the colours of line `k` are those set by its own bytes in offsets 16 to 127, counting lines by 0x8A and starting from white on black; when the field has fewer lines they are the defaults |
| Colors.FirstTextTableMatchesNames | libavcodec/ebustldec.c:248-264 | the first line's text colour table gives each code the BGR value of the colour the code's diagnostics name it |
| Colors.LaterTextTableSwapsRedAndBlue | libavcodec/ebustldec.c:313-329 | the later lines' table gives red text the blue value and blue text the red value, and agrees with the first table exactly on the other six codes |
| Colors.BorderTableMatchesNames | libavcodec/ebustldec.c:266-283 | the border table gives each background code the BGR value of its diagnostic name |
| Markup.ExtractTextAndColors | libavcodec/ebustldec.c:236-378 | the markup starts with the first line's colour tags, so it is never empty |
| Markup.MarkupByLines | libavcodec/ebustldec.c:285-371 | the markup is line 0's colour tags and text, then for each later line its colour tags and, when it has text, `\N` and the text; lines are split at 0x8A and cut at the first 0x8F; only bytes of 0x20 and above are kept |
| Markup.TextPassRendersLines | libavcodec/ebustldec.c:287-360 | the text pass from any state agrees with that line-by-line rendering of the remaining bytes |
| Markup.TextPassCountsLines | libavcodec/ebustldec.c:287-355 | the text pass ends with its line count equal to the number of 0x8A codes before the first 0x8F, the count that picks each new line's colour tags |
| Markup.BuildMarkup | libavcodec/ebustldec.c:236-378 | the loop with its 256-byte line buffer builds exactly the markup above, and every write to the buffer, the terminators included, is in bounds |
| Markup.ScanByte | libavcodec/ebustldec.c:287-360 | one loop turn keeps the line within the bytes read so far and advances the text pass by one byte, or stops exactly at 0x8F |
| Markup.AppendLine | libavcodec/ebustldec.c:291-301 | every finished line goes through the conversion; its UTF-8 text is appended after `\N` unless it is line 0, and nothing is appended when the line is empty |
| Markup.AppendLineAsWritten | libavcodec/ebustldec.c:291-301 | with the conversion as written, appending a finished line writes out of bounds, at index 0, exactly when the line is empty; any other line is appended as `AppendLine` appends it |
| Markup.ConvertedLinesByLines | libavcodec/ebustldec.c:287-366 | the lines the pass hands to the conversion, one at each 0x8A and one where it stops, are the text lines with their bytes below 0x20 dropped |
| Markup.EmptyLineConverted | libavcodec/ebustldec.c:287-366 | an empty line reaches the conversion exactly when some text line of the block is empty once its bytes below 0x20 are dropped |
| Markup.ScanByteAsWritten | libavcodec/ebustldec.c:287-360 | one loop turn as written: it overflows exactly at a 0x8A that ends an empty line, stops exactly at 0x8F, and otherwise advances the pass by one byte without changing whether an empty line is still to reach the conversion |
| Markup.MarkupLoopAsWritten | libavcodec/ebustldec.c:236-378 | the loop as written fails exactly when it hands an empty line to the conversion, and otherwise builds the markup of the corrected loop |
| Markup.BuildMarkupAsWritten | libavcodec/ebustldec.c:236-378 | the markup builder as written writes outside an empty buffer, at index 0, exactly when the block has an empty line; otherwise it yields the markup `ExtractTextAndColors` describes |
| Markup.BlankLineOverflows | libavcodec/ebustldec.c:287-301 | on a block whose text is "A", two 0x8A codes, "B", 0x8F, the builder as written fails with the terminator written at index 0 of an empty buffer |
| Markup.EndOfTextOnlyOverflows | libavcodec/ebustldec.c:352-366 | on a block whose text is only 0x8F, the builder as written fails the same way when it converts the one empty line |
| Markup.BlankLineExample | libavcodec/ebustldec.c:287-301 | "A" 0x8A 0x8A "B" 0x8F behind control bytes splits into three lines whose middle one is empty, so the builder as written overflows on it |
| Markup.EndOfTextOnlyExample | libavcodec/ebustldec.c:352-366 | a text field of only 0x8F behind control bytes gives one line, empty once they are dropped, so the builder as written overflows on it |
| Markup.PrintableAppend | libavcodec/ebustldec.c:357-358 | the byte filter distributes over concatenation |
| Markup.TwoLineExample | libavcodec/ebustldec.c:285-371 | "HI" 0x8A "BYE" 0x8F behind three control bytes gives line 0's tags, `HI`, line 1's tags, `\NBYE` |
| Markup.SingleLineMarkup | libavcodec/ebustldec.c:362-371 | text without 0x8A before 0x8F gives line 0's tags and the transcoded printable bytes, nothing else |
| Markup.ColorsPastEndOfTextExample | libavcodec/ebustldec.c:179-229 | a text colour code after 0x8F on line 0 still sets line 0's colour |
| Markup.EndOfTextFirstExample | libavcodec/ebustldec.c:285-377 | a block whose text field starts with 0x8F yields just line 0's colour tags, taken from codes after the 0x8F |
| Markup.HeaderBytesAsTextExample | libavcodec/ebustldec.c:237-358 | ASCII bytes at offsets 13 to 15 appear as text at the front of the markup |
| Decoder.HorizontalAlignment | libavcodec/ebustldec.c:404-414 | the column is 1 to 3: left exactly for justification 0x01, right exactly for 0x03, centred for every other value |
| Decoder.VerticalAlignment | libavcodec/ebustldec.c:416-423 | the row is 1 to 3: row 3 exactly for vertical positions below 8, row 1 exactly above 16, row 2 from 8 to 16 |
| Decoder.Alignment | libavcodec/ebustldec.c:404-425 | the numpad code's column is the horizontal alignment and its row the vertical one, with the code always in 1..9 |
| Decoder.AlignmentMeaning | libavcodec/ebustldec.c:407-423 | the code is in the left column exactly for justification 1, in the right exactly for 3; on the top row exactly for vertical position below 8, on the bottom row exactly above 16 |
| Decoder.AlignmentInjective | libavcodec/ebustldec.c:425 | equal codes come from equal row and column choices |
| Decoder.AlignmentExamples | libavcodec/ebustldec.c:404-425 | (5, 1) gives 7, (12, 2) gives 5, (20, 3) gives 3, an unknown justification centres |
| Decoder.AlignmentMonotone | libavcodec/ebustldec.c:416-425 | a larger vertical position never gives a higher numpad code |
| Decoder.AlignmentTagDigit | libavcodec/ebustldec.c:425 | the tag is `{\an`, one digit that reads back as the code, `}` |
| Decoder.FinalText | libavcodec/ebustldec.c:428 | the rectangle text starts with the block's own alignment tag and is longer than that tag and `{\bord3}` together |
| Decoder.FinalTextParts | libavcodec/ebustldec.c:428 | the rectangle text splits back into the block's alignment tag, its markup and `{\bord3}` |
| Decoder.DecodeBlocksPerBlock | libavcodec/ebustldec.c:389-444 | a packet gives one rectangle per complete block, in order: rectangle `i` carries block `i`'s final text and read order `start + i`; a short remainder gives nothing |
| Decoder.DecodeBlocksStep | libavcodec/ebustldec.c:389-444 | one turn of the loop: the first block's rectangle, then the rest numbered on |
| Decoder.EndDisplayTime | libavcodec/ebustldec.c:433 | the 32-bit end display time is the duration for durations in range, and a negative duration wraps to it plus 2^32 |
| Decoder.DecodeFrame | libavcodec/ebustldec.c:381-447 | a subtitle is reported exactly when the packet holds a complete block, the end display time is set exactly then, and the read order moves on by the number of complete blocks |
| Decoder.DecodeFrameCounts | libavcodec/ebustldec.c:381-447 | the frame holds one rectangle per complete block, numbered on from the read order it was given, and its end display time, when set, is the packet duration cast to 32 bits |
| Pipeline.OneBlockFrame | libavcodec/ebustldec.c:389-444 | a one-block packet gives exactly one rectangle with that block's text, a subtitle, its end time, and the read order plus one |
| Pipeline.DecodePackets | libavcodec/ebustldec.c:381-447 | decoding packets in turn, each call from the read order the previous one reached, gives exactly one frame per packet |
| Pipeline.DecodePacketsAt | libavcodec/ebustldec.c:386-435 | packet `i` is decoded from the read order reached after the blocks of all earlier packets |
| Pipeline.FrameOfFile | libavcodec/ebustldec.c:386-443 | when every packet is one block, frame `i` has one rectangle numbered `i` with packet `i`'s text, and hands on read order `i + 1` |
| Pipeline.DecodeFile | libavformat/ebustldec.c:33-61 | a file gives one frame per complete block after the header; frame `i` has one rectangle, numbered `i`, whose text is the final text of block `i` of the file |
| Pipeline.OneCuePacket | libavformat/ebustldec.c:58-61 | a one-block file stamped 10:00:05:00 to 10:00:07:00 gives one packet at 5000 ms lasting 2000 ms |
| Pipeline.OneCueExample | libavcodec/ebustldec.c:433-443 | that packet decodes to one rectangle with read order 0, shown for 2000 ms |

## Left out

- Decoder initialisation (`ebustl_decode_init`): the fixed ASS header text, default time base and picture size. These are configuration constants with no logic to prove.
- Every `av_log` call and `log_tti_block_hex`: diagnostics only. The colour names in the diagnostics are used only to state what the tables mean.
- Memory ownership: each reassignment of the markup string leaks the previous `av_asprintf` result. Strings are values here, so leaks are not modelled.
- Allocation failures: the unchecked line-buffer allocation, `av_asprintf`, `av_new_packet` and `avformat_new_stream` returning failure, and `convert_iso6937_to_utf8` returning NULL. The model assumes every allocation succeeds. The decoder's "ignore empty" branch is kept, and is proved never to fire otherwise.
- `av_rescale_q` is taken as the identity, since the decoder's time base defaults to 1/1000 like the stream's. `ff_ass_add_rect` becomes appending a rectangle to a list.
- The decoder's private data is read as an ASS decoder context although the registered private struct is another type. The read order is modelled as an explicit counter, starting at 0 and threaded from call to call.
- AVIO and registration plumbing: seeking, reading, stream creation, pts info, the format and codec descriptor tables. Reading a short block is modelled as end of file.
- The UTF-8 literals of the diacritic table are taken as the two-byte encodings of the Latin-1 letters they spell. The source file's own encoding is not modelled.
- Iso6937.ConvertAsWritten: an empty input yields a zero-size allocation. The model reports the write of the terminator out of bounds and stops there; it does not model what `malloc(0)` returns or what the code does after the write. `Markup.BuildMarkupAsWritten` carries this to whole blocks; the rest of the model uses the corrected `Iso6937.Convert`.
- Decoder.DecodeFrame: the read order is the ASS decoder context's C `int`, incremented once per rectangle. The model counts with an unbounded natural, so the signed overflow after 2^31 - 1 rectangles is not modelled.
- Pipeline.DecodeFile: "frame `i` is numbered `i`" holds in C only while `i` stays below 2^31, for the same reason; a file would need over 256 GiB of blocks to pass it.
- The probe buffer padding FFmpeg adds after the probed bytes is not modelled. A read past the valid size counts as out of bounds.

## Findings

| source | as written | input that shows it | evidently intended | confidence | as-written member | corrected member |
|---|---|---|---|---|---|---|
| libavcodec/ebustldec.c:140-166 | the output buffer holds `length * 4` bytes and the terminator goes at the final write index; lines 294 and 365 convert every line, empty ones too | any block with an empty line, e.g. text "A" 0x8A 0x8A "B" 0x8F or only 0x8F (`Markup.BlankLineOverflows`, `Markup.EndOfTextOnlyOverflows`): `malloc(0)`, then `output[0] = '\0'` | room for the terminator, `length * 4 + 1` bytes | not executed | Markup.BuildMarkupAsWritten | Markup.BuildMarkup |
| libavformat/ebustldec.c:15-17 | buffers shorter than 5 are rejected, then `buf[5]` is read | a 5-byte probe buffer 00 00 00 'S' 'T' | reject buffers shorter than 6, the size the three reads need | not executed | Demuxer.ProbeAsWritten | Demuxer.Probe |
