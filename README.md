# Monospaced table: a verified model of the `/proc` polling pipeline

The Android app shows kernel pseudo-files (`/proc/stat`, `/proc/meminfo`) and a
bundled word list as tables of monospaced text. Every refresh reads the whole
file into a byte buffer, decodes it to UTF-16 chars, and cuts the chars into a
column-major table of (offset, length) spans without copying them. A worker
fills one of two generations of spans while the view reads the other; a
counter flips the two once a parse completes. Around this pipeline sit the
helpers it relies on: a hand-written UTF-8 codec, decimal and radix number
conversion, a growable char buffer with a sub-sequence view, and small timing
and layout utilities.

The Dafny modules follow the Java files:

- `JavaLang`: Java semantics the model needs: `int` and `long` ranges and
  wrap-around, truncating division, `Character.isWhitespace`,
  `Character.digit`, line counting, and the exceptions a call can end in.
- `Utf8` (`utf8.java`): the decoder and encoder loops over caller arrays,
  specified by pure `Decode` and `Encode` functions, with the surrogate helpers.
- `Numbers` (`Numbers.java`): `parse`/`parseLong` as a loop checked against
  a digit-string specification, and `appendLong` filling its buffer backwards.
- `Text` (`Text.java`): `startsWith`, `CharSubSequence` and the writer with its
  `append` overloads.
- `Util` (`util.java`): `humanReadable`, `humanReadableSuffix`, `measure`,
  `equals` and the label pairing of `timestamp`.
- `ProcFS` (`ProcFS.java`): the two generations of `Data` and the reading of
  the file with its buffer growth, decoding and line counting; the one-slot
  command mailbox as explicit steps; the generation flip and the readers'
  `columns`/`rows`/`getText`.
- `MemInfo` (`MemInfo.java`): the key / value / rest parser.
- `Cpu` (`CPU.java`, `parse`): the whitespace tokenizer of `/proc/stat`.
- `CpuStats` (`CPU.java`, `textToStats`, `delta`, `load`): counters per
  processor slot, rates per second and the busy share.
- `CpuTable` (`CPU.java`, the table): the cells the view reads and `read`
  from file to published slots.
- `WordList` (`Words.java`): the line splitter, `update` with its `once` flag,
  and `getText`.

Loops in the source are methods with loop invariants, and each is tied by its
`ensures` to a pure function. Properties are then stated about those functions
as lemmas. Where the code as written breaks a promise its own assertions or
comments make, both versions are modelled (see Findings); the rest of the
model uses the corrected one.

## Model

| member | source | states |
|---|---|---|
| Utf8.SurrogateHalves | src/android/mono/table/etc/utf8.java:232-242 | among surrogates, the one-bit lead/trail tests pick exactly the high (below U+DC00) and the low half |
| Utf8.GetSupplementary | src/android/mono/table/etc/utf8.java:244-248 | a high/low pair maps to the code point 0x10000 + (lead − 0xD800)·0x400 + (trail − 0xDC00), inside U+10000..U+10FFFF; any lead gives a value below 0x200000, so the `int` cast is harmless |
| Utf8.PairRoundTrip | src/android/mono/table/etc/utf8.java:208-220 | the pair the decoder writes for a supplementary value is a high then a low surrogate that `U16_GET_SUPPLEMENTARY` maps back to that value |
| Utf8.PairSplit | src/android/mono/table/etc/utf8.java:212-216 | a proper pair goes to a code point and back to the same two chars |
| Utf8.DecodeFirst | src/android/mono/table/etc/utf8.java:142-224 | one pass of the decoder's outer loop consumes at least one and at most the remaining bytes and writes one or two chars |
| Utf8.DecodeFirstShort | src/android/mono/table/etc/utf8.java:150-220 | no pass writes more chars than it consumes bytes |
| Utf8.DecodeLength | src/android/mono/table/etc/utf8.java:136-137 | the decoded text is never longer than the input, so an output of `byteCount` chars always has room |
| Utf8.DecodeAscii | src/android/mono/table/etc/utf8.java:145-149 | bytes below 0x80 decode one for one to the same values |
| Utf8.DecodeTruncated | src/android/mono/table/etc/utf8.java:168-171 | a sequence cut short by the end of input gives a single U+FFFD and decoding stops |
| Utf8.DecodeStray | src/android/mono/table/etc/utf8.java:221-224 | a byte that cannot start a sequence gives U+FFFD and decoding goes on at the next byte |
| Utf8.DecodeResync | src/android/mono/table/etc/utf8.java:174-180 | a non-continuation byte inside a sequence gives U+FFFD and is decoded again as the next start |
| Utf8.DecodeFirstComplete | src/android/mono/table/etc/utf8.java:173-220 | a lead with all its continuation bytes consumes them and writes the chars of the accumulated value |
| Utf8.DecodeFirstBroken | src/android/mono/table/etc/utf8.java:174-180 | a lead broken by a non-continuation byte consumes only the bytes before it |
| Utf8.DecodeConcat | src/android/mono/table/etc/utf8.java:142-225 | a complete sequence decodes the same whatever follows it |
| Utf8.TwoBytesDecode | src/android/mono/table/etc/utf8.java:264-269 | the two bytes written for U+0080..U+07FF decode to that char, consuming both |
| Utf8.ThreeBytesDecode | src/android/mono/table/etc/utf8.java:291-297 | the three bytes written for a char from U+0800 decode to that char |
| Utf8.FourBytesDecode | src/android/mono/table/etc/utf8.java:283-290 | the four bytes written for a supplementary code point decode to its surrogate pair |
| Utf8.EncodeFirst | src/android/mono/table/etc/utf8.java:256-299 | one pass of the encoder's loop consumes one or two chars and writes one to four bytes |
| Utf8.UnitRoundTrip | src/android/mono/table/etc/utf8.java:256-299 | one encoder pass, with the RFC 2781 trail test, writes one complete UTF-8 sequence that decodes to what `Sanitize` keeps of the chars it consumed |
| Utf8.EncodeCheckedRoundTrip | src/android/mono/table/etc/utf8.java:252-301 | encoding with the RFC 2781 trail test, then decoding, gives the input with each unpaired surrogate replaced by '?' |
| Utf8.WellFormedAgrees | src/android/mono/table/etc/utf8.java:270-280 | on valid UTF-16 the one-bit trail test and the RFC 2781 test agree, and nothing is replaced |
| Utf8.EncodeRoundTrip | src/android/mono/table/etc/utf8.java:136-301 | encoding valid UTF-16 and decoding the bytes gives back the same chars |
| Utf8.SequenceRange | src/android/mono/table/etc/utf8.java:185-216 | a well-formed UTF-8 sequence (RFC 3629 section 4) of 1, 2, 3 or 4 bytes spells a code point below U+0080, in U+0080..U+07FF, in U+0800..U+FFFF outside the surrogates, or in U+10000..U+10FFFF |
| Utf8.SequenceBytes | src/android/mono/table/etc/utf8.java:261-297 | the bytes the encoder writes for the code point of a well-formed sequence are that sequence |
| Utf8.SequenceRoundTrip | src/android/mono/table/etc/utf8.java:142-297 | a well-formed sequence is one decoder pass writing its chars, and those chars, whatever follows them, are one encoder pass writing the sequence back |
| Utf8.DecodeRoundTrip | src/android/mono/table/etc/utf8.java:312-333 | decoding well-formed UTF-8 gives valid UTF-16, and encoding that gives back the same bytes, the direction the smoke test checks on `helloBytes` |
| Utf8.TrailTestCounterexample | src/android/mono/table/etc/utf8.java:240-242 | as written, U+D800 followed by U+0400 is encoded as a pair and comes back as U+2800; the RFC 2781 test writes '?' and keeps U+0400 |
| Utf8.ShiftInTrail | src/android/mono/table/etc/utf8.java:174-184 | the inner loop stops at the first non-continuation byte and, when none is found, holds the accumulated payload |
| Utf8.DecodeUnit | src/android/mono/table/etc/utf8.java:142-224 | one pass over the array does what `DecodeFirst` says on the remaining bytes |
| Utf8.DecodeOne | src/android/mono/table/etc/utf8.java:142-224 | a pass writes a prefix of the decoding of the rest and moves past what it consumed |
| Utf8.Emit | src/android/mono/table/etc/utf8.java:210-219 | a pass's chars are written at `s`; a pair is refused (-1) when only one char of room remains after the high surrogate, so at least one char must stay free after the low surrogate |
| Utf8.Decoder | src/android/mono/table/etc/utf8.java:136-227 | fails its assertion exactly when `v.length + s < byteCount`; otherwise returns -1 exactly when the decoding does not fit (or a final pair fills the window), else `s` plus its length, with the chars written in `v[s..]` and nothing outside the window touched |
| Utf8.EncodeOne | src/android/mono/table/etc/utf8.java:256-299 | a pass writes a prefix of the encoding of the rest and moves past the chars it consumed |
| Utf8.EncodeTurn | src/android/mono/table/etc/utf8.java:257-298 | a pass either refuses only when the whole encoding cannot fit or writes its bytes and keeps the encoding invariant |
| Utf8.Encoder | src/android/mono/table/etc/utf8.java:252-301 | fails its assertion exactly when `s + len > out.length`; otherwise returns -1 exactly when the encoding does not fit (or its multi-byte tail fills the window exactly), else `s` plus its length, with the bytes written in `out[s..]` |
| Utf8.EncodeRefused | src/android/mono/table/etc/utf8.java:259-294 | when the encoder gives up (-1) for want of room, the whole encoding is longer than the room, or exactly as long and ending in a multi-byte unit |
| Numbers.DigitChar | src/android/mono/table/etc/Numbers.java:54-57 | the digit char of a value below 16 is read back by `Character.digit` in radix 16 as that value |
| Numbers.SkipWhitespace | src/android/mono/table/etc/Numbers.java:113-115 | the leading-whitespace skip leaves a suffix that is empty or starts with a non-whitespace char |
| Numbers.DecimalValuePrefix | src/android/mono/table/etc/Numbers.java:125-138 | a prefix of a digit string is worth no more than the whole |
| Numbers.ParseLong | src/android/mono/table/etc/Numbers.java:106-146 | `parseLong(s, offset, length)` gives exactly `ParseLongSpec` of the window: an optional '-' after whitespace, then one or more decimal digits (ASCII, see Left out) whose value fits a `long`, else `NumberFormatException` |
| Numbers.SkipLeading | src/android/mono/table/etc/Numbers.java:113-115 | the whitespace loop stops at the suffix `SkipWhitespace` describes |
| Numbers.ParseSigned | src/android/mono/table/etc/Numbers.java:116-146 | sign handling and the empty-digits error agree with `ParseLongSpec` |
| Numbers.AccumulateNegative | src/android/mono/table/etc/Numbers.java:123-138 | the negative accumulation fails exactly on a char that is not an ASCII digit or a magnitude beyond 2^63, else yields minus the decimal value |
| Numbers.AccumulateStep | src/android/mono/table/etc/Numbers.java:130-136 | the `max > result` guard and the `next > result` wrap test together detect exactly the magnitudes beyond 2^63 |
| Numbers.OverflowIsFinal | src/android/mono/table/etc/Numbers.java:130-136 | once a prefix overflows, the whole string is out of range or not all digits, so throwing early is right |
| Numbers.EffectiveRadix | src/android/mono/table/etc/Numbers.java:157-159 | a radix outside 2..16 becomes 10; any other is kept |
| Numbers.DigitsLength | src/android/mono/table/etc/Numbers.java:172-176 | a magnitude has at most `k` digits exactly when it is below radix^k |
| Numbers.RenderLength | src/android/mono/table/etc/Numbers.java:166-179 | every `long` renders in at most 64 chars except `Long.MIN_VALUE` in radix 2, which needs 65 |
| Numbers.SourceBufferTooShort | src/android/mono/table/etc/Numbers.java:77 | `Long.MIN_VALUE` in radix 2 is one char longer than the 64-char `num` buffer |
| Numbers.RenderFitsBuffer | src/android/mono/table/etc/Numbers.java:156-183 | with a 65-char buffer every `long` in every radix fits |
| Numbers.NoLeadingZero | src/android/mono/table/etc/Numbers.java:172-176 | the digits start with '0' only for zero |
| Numbers.RenderShape | src/android/mono/table/etc/Numbers.java:166-179 | the text starts with '-' exactly for negative values, holds only digits of the radix after it, and has no leading zero except for zero itself |
| Numbers.DecimalDigitsValue | src/android/mono/table/etc/Numbers.java:172-176 | the decimal digits of a magnitude read back as that magnitude |
| Numbers.ParseRenderRoundTrip | src/android/mono/table/etc/Numbers.java:102-183 | `parseLong` of what `appendLong(v, 10)` writes gives back `v`, for every `long` |
| Numbers.NegativeDigit | src/android/mono/table/etc/Numbers.java:173-174 | on a non-positive value Java's truncating `/` and `radix * q - v` give the next digit of the magnitude |
| Numbers.Formatter.AppendLong | src/android/mono/table/etc/Numbers.java:156-183 | succeeds exactly when the rendering fits the buffer and then yields exactly `Render(v, radix')` with the out-of-range radix replaced by 10; running out of buffer is the index error |
| Numbers.Formatter.Prepend | src/android/mono/table/etc/Numbers.java:174 | `num[--cursor] = c` puts `c` in front of the chars already written |
| Numbers.Formatter.FillDigits | src/android/mono/table/etc/Numbers.java:170-176 | the do-while loop leaves exactly the digits of the magnitude at the end of `num`, or fails when they do not fit |
| Numbers.DivideStep | src/android/mono/table/etc/Numbers.java:173-175 | one turn of the loop moves the last pending digit out and shrinks the value towards zero |
| Numbers.DigitTurn | src/android/mono/table/etc/Numbers.java:173-175 | the digit and quotient of one turn split the digits of the magnitude into the quotient's digits and one more |
| Numbers.Formatter.constructor | src/android/mono/table/etc/Numbers.java:77 | the digit buffer is a fresh array of the given length (64 in the source) |
| Text.StartsWith | src/android/mono/table/etc/Text.java:48-59 | true exactly when `cs2` is a prefix of `cs1` |
| Text.CharSubSequence.Length | src/android/mono/table/etc/Text.java:187-189 | the window's length is the number of chars it shows |
| Text.CharSubSequence.CharAt | src/android/mono/table/etc/Text.java:191-193 | `charAt(i)` is the i-th char the window shows |
| Text.CharSubSequence.SubSequence | src/android/mono/table/etc/Text.java:195-197 | a nested window is a window on the same buffer showing the chars `s..e` of the outer one |
| Text.Text.constructor | src/android/mono/table/etc/Text.java:40-46 | a new text is empty |
| Text.Text.Length | src/android/mono/table/etc/Text.java:79-81 | the number of chars written |
| Text.Text.AsSubSequence | src/android/mono/table/etc/Text.java:67-89 | `array()`, `offset()` and `length()` show exactly the chars written |
| Text.Text.Reset | src/android/mono/table/etc/Text.java:36 | `reset()` empties the text |
| Text.Text.AppendChar | src/android/mono/table/etc/Text.java:99 | appends one char |
| Text.Text.AppendCharSequence | src/android/mono/table/etc/Text.java:91-103 | appends "null" for a null sequence, else the whole sequence, ignoring `start` and `end` |
| Text.Text.AppendChars | src/android/mono/table/etc/Text.java:105-112 | appends "null" for a null array, else `ca[start..end]`; a range outside the array throws and writes nothing |
| Text.Text.AppendArray | src/android/mono/table/etc/Text.java:114-117 | appends the whole array |
| Text.Text.AppendString | src/android/mono/table/etc/Text.java:119-126 | appends "null" for a null string, else the string |
| Text.Text.AppendLong | src/android/mono/table/etc/Text.java:138-153 | appends the rendering of `v` in the effective radix exactly when it fits the formatter's buffer, else throws and leaves the text as it was |
| Text.Text.AppendEach | src/android/mono/table/etc/Numbers.java:180-182 | the closing loop of `appendLong` appends the chars one by one, in order |
| Numbers.DecimalFits | src/android/mono/table/etc/Numbers.java:77 | every `long` renders in radix 10 in at most 20 chars, which the 64-char buffer holds |
| Text.Text.AppendDecimal | src/android/mono/table/etc/Text.java:155-169 | with any formatter buffer of at least 20 chars, the source's 64 included, the radix-10 overloads always succeed and append the decimal rendering |
| Util.UnitFor | src/android/mono/table/etc/util.java:224-246 | the unit is the largest whose threshold (10 of that unit) the duration reaches, and the duration is below 10 000 of it unless the unit is seconds |
| Util.HumanReadableSuffix | src/android/mono/table/etc/util.java:224-234 | the suffix names the unit `UnitFor` picks |
| Util.HumanReadable | src/android/mono/table/etc/util.java:236-246 | below 10 000 ns the duration itself; otherwise the whole number of the chosen unit, rounded down |
| Util.HumanReadableDigits | src/android/mono/table/etc/util.java:236-246 | from 10 µs up to 10 s the printed number has two to four digits |
| Util.Measure | src/android/mono/table/etc/util.java:278-281 | EXACTLY gives the size, AT_MOST the smaller of size and preferred, anything else the preferred size |
| Util.Equals | src/android/mono/table/etc/util.java:76-87 | for two sequences of one length: true exactly when they are equal, and a false answer has a differing index |
| Util.TimestampStep | src/android/mono/table/etc/util.java:208-221 | a new label is started and 0 returned; a started label is removed and at least 1 returned; other labels stay |
| Util.TimestampPairs | src/android/mono/table/etc/util.java:198-221 | two calls with one label return 0, then the elapsed time clamped to at least 1, and leave the table as it was |
| Util.Stopwatch.Timestamp | src/android/mono/table/etc/util.java:198-222 | one call does what `TimestampStep` says to the table of started labels |
| Util.Stopwatch.constructor | src/android/mono/table/etc/util.java:194 | the map of started labels begins empty |
| ProcFS.Data.constructor | src/android/mono/table/data/ProcFS.java:63-70 | a generation starts with a 4096-byte buffer, no chars and no span arrays |
| ProcFS.Put | src/android/mono/table/data/ProcFS.java:72 | a parser's write of one cell's span: that cell now holds the span, every other cell keeps what it held |
| ProcFS.CountLines | src/android/mono/table/data/ProcFS.java:201-216 | the count is the number of line breaks in `chars[..len]` plus one for an unterminated last line; the span arrays get exactly that many rows, reused when already that size and fresh otherwise |
| ProcFS.CountLinesIsLineCount | src/android/mono/table/data/ProcFS.java:192-193 | with the flag computed from the last char, the count is the text's line count and at least one |
| ProcFS.Source.constructor | src/android/mono/table/data/ProcFS.java:77 | the opened file holds the given content, with the file pointer at 0 |
| ProcFS.Source.Rewind | src/android/mono/table/data/ProcFS.java:172 | seeking to 0 puts the file pointer at the start |
| ProcFS.Source.Read | src/android/mono/table/data/ProcFS.java:174-176 | at the end of the file the read returns -1 and copies nothing; otherwise it copies 1 to `len` bytes of the content at the file pointer and advances it by that many |
| ProcFS.CapacityFor | src/android/mono/table/data/ProcFS.java:181-186 | the final buffer capacity is strictly larger than the file and is either the starting capacity or at most one and a half times the file size |
| ProcFS.CapacityStep | src/android/mono/table/data/ProcFS.java:181-186 | filling a buffer to the brim and growing it by half ends at the same capacity as starting from the grown buffer |
| ProcFS.ReadAll | src/android/mono/table/data/ProcFS.java:169-187 | the read loop leaves the whole file in `bytes[..len]`, with `len` the file size and the capacity `CapacityFor` the starting one; nothing else in the generation changes |
| ProcFS.ReadInto | src/android/mono/table/data/ProcFS.java:169-187 | the same loop on a buffer: the buffer it ends with holds the whole file and has capacity `CapacityFor` the starting one |
| ProcFS.ReadTurn | src/android/mono/table/data/ProcFS.java:174-186 | one turn of the loop: either the end of the file (the buffer already holds all of it) or a positive number of new bytes that extend the prefix the buffer holds |
| ProcFS.ReadMore | src/android/mono/table/data/ProcFS.java:174-180 | one `raf.read` into the free tail keeps the prefix already read and appends the next bytes of the file |
| ProcFS.Grow | src/android/mono/table/data/ProcFS.java:181-186 | the reallocated buffer is fresh, one and a half times as long (strictly longer) and starts with the old contents |
| ProcFS.UpdateStep | src/android/mono/table/data/ProcFS.java:93-96 | `update` replaces the queued command with a read and the pending callback with the new one, leaving the worker and the posted callbacks alone |
| ProcFS.CloseStep | src/android/mono/table/data/ProcFS.java:85-86 | `close` replaces the queued command with QUIT and changes nothing else |
| ProcFS.TakeStep | src/android/mono/table/data/ProcFS.java:139-152 | the worker empties the one-slot queue and stops on QUIT, otherwise runs the command |
| ProcFS.FinishStep | src/android/mono/table/data/ProcFS.java:153-159 | after a command the worker posts the pending callback, if any, exactly once and clears it |
| ProcFS.UpdatesCoalesce | src/android/mono/table/data/ProcFS.java:93-96 | two updates before the worker wakes run one read and post only the second callback |
| ProcFS.CloseCancelsRead | src/android/mono/table/data/ProcFS.java:85-96 | a close after an update overwrites the queued read, so the worker stops without reading |
| ProcFS.NoUpdateNoPost | src/android/mono/table/data/ProcFS.java:153-159 | with no callback pending, finishing a command posts nothing |
| ProcFS.Increment | src/android/mono/table/data/ProcFS.java:195 | `incrementAndGet` adds one in 32-bit two's complement, wrapping from the largest int to the smallest |
| ProcFS.GenerationAsWritten | src/android/mono/table/data/ProcFS.java:195 | for a non-negative counter the index is its remainder mod 2 |
| ProcFS.GenerationAsWrittenGoesNegative | src/android/mono/table/data/ProcFS.java:195 | two increments past the largest int give a counter whose Java remainder mod 2 is -1, not a valid index |
| ProcFS.Generation | src/android/mono/table/data/ProcFS.java:195 | the corrected index is always 0 or 1 and agrees with the source wherever the counter is non-negative |
| ProcFS.GenerationAlternates | src/android/mono/table/data/ProcFS.java:195 | every increment flips the corrected index, including across the wrap-around |
| ProcFS.Load | src/android/mono/table/data/ProcFS.java:166-193 | everything `read` does before `parse`: the whole file in the bytes, `chars` sized to the byte count and holding the decoded text, the last-break flag and the line count right, span arrays of that many rows; an empty file fails with an index error |
| ProcFS.SizeChars | src/android/mono/table/data/ProcFS.java:188-190 | `chars` ends with exactly `len` elements, reused when it already has that size |
| ProcFS.DecodeInto | src/android/mono/table/data/ProcFS.java:191 | `chars` starts with the UTF-8 decoding of the file's bytes |
| ProcFS.Engine.constructor | src/android/mono/table/data/ProcFS.java:63-70 | two distinct fresh generations with the given columns, index 0, counter 0, nothing queued or posted |
| ProcFS.Engine.Current | src/android/mono/table/data/ProcFS.java:167 | the worker writes one of the two generations |
| ProcFS.Engine.Published | src/android/mono/table/data/ProcFS.java:99-107 | readers see the other generation, never the one being written |
| ProcFS.Engine.Update | src/android/mono/table/data/ProcFS.java:93-96 | the mailbox takes `UpdateStep`; the generations are untouched |
| ProcFS.Engine.Close | src/android/mono/table/data/ProcFS.java:85-86 | the mailbox takes `CloseStep` |
| ProcFS.Engine.WorkerTake | src/android/mono/table/data/ProcFS.java:139-152 | the worker takes the queued command and the mailbox takes `TakeStep` |
| ProcFS.Engine.WorkerFinish | src/android/mono/table/data/ProcFS.java:153-159 | the mailbox takes `FinishStep` |
| ProcFS.Engine.Columns | src/android/mono/table/data/ProcFS.java:98-100 | the column count the engine was made with |
| ProcFS.Engine.Rows | src/android/mono/table/data/ProcFS.java:102-104 | the published generation's line count (at least one); a null-pointer error before the first generation is published, an index error with no columns |
| ProcFS.Engine.GetText | src/android/mono/table/data/ProcFS.java:106-109 | fails exactly when the rows are unavailable or the cell is out of range: a column out of range is an index error, a column in range before the first publish a null dereference, a row out of range an index error; otherwise a window on the published chars at that cell's offset and length |
| ProcFS.Engine.Fill | src/android/mono/table/data/ProcFS.java:166-193 | `Load` on the generation being written, while the rows and every `getText` of the published one stay as they were |
| ProcFS.Engine.Publish | src/android/mono/table/data/ProcFS.java:195 | the counter is incremented and the two generations swap roles |
| ProcFS.PublishedText | src/android/mono/table/data/ProcFS.java:106-109 | every span a parser wrote into the published generation is what `getText` returns for that cell |
| MemInfo.SkipSpaces | src/android/mono/table/data/MemInfo.java:52-54 | the blank-skipping loop stops inside the text, at or after where it starts |
| MemInfo.ValueEnd | src/android/mono/table/data/MemInfo.java:55-58 | the value scan stops inside the text, at or after where the value starts |
| MemInfo.Step | src/android/mono/table/data/MemInfo.java:45-71 | one turn of the loop keeps the cursor well shaped and either advances `i` or moves from the value state to the rest state in place |
| MemInfo.Run | src/android/mono/table/data/MemInfo.java:45-71 | the loop ends with `i` at or past the end of the text |
| MemInfo.Passed | src/android/mono/table/data/MemInfo.java:45 | the part of the text the loop has passed is a prefix of it |
| MemInfo.StepGood | src/android/mono/table/data/MemInfo.java:45-71 | one turn keeps every recorded span inside the text, in the three columns and in rows below the lines already passed |
| MemInfo.RunGood | src/android/mono/table/data/MemInfo.java:45-71 | so does the whole loop |
| MemInfo.ParsedWithin | src/android/mono/table/data/MemInfo.java:40-77 | `parse` never closes more rows than the text has lines, writes only the three columns and existing rows, and every span lies inside the text |
| MemInfo.ScanValue | src/android/mono/table/data/MemInfo.java:52-58 | the two inner loops return where the blanks end and where the value ends |
| MemInfo.Parse | src/android/mono/table/data/MemInfo.java:40-77 | the span arrays hold exactly the spans `Parsed` records and nothing else changes; the closing assertion holds exactly when the rows closed equal the line count |
| MemInfo.CloseLast | src/android/mono/table/data/MemInfo.java:72-76 | an unterminated last line gets its rest span up to the end of the text and one more row |
| MemInfo.Scan | src/android/mono/table/data/MemInfo.java:41-71 | the loop ends in the cursor `Run` gives from the start, with its spans written into the arrays |
| MemInfo.Turn | src/android/mono/table/data/MemInfo.java:46-70 | one turn of the imperative loop is `Step`, with the spans it records written into the arrays |
| MemInfo.Read | src/android/mono/table/data/ProcFS.java:166-195 | for `/proc/meminfo`: an empty file fails with an index error, a failed assertion keeps the published generation; on success the newly parsed generation is published, its row count is its line count and its cells hold the parsed spans |
| MemInfo.Commit | src/android/mono/table/data/MemInfo.java:40-77 | `parse` then publish: a failed closing assertion leaves readers on the old generation; otherwise the new one is published with its parsed spans |
| MemInfo.Line.Chars | src/android/mono/table/data/MemInfo.java:40-77 | a meminfo line is key, colon, blanks, value, rest and line break, as long as its size |
| MemInfo.Line.Spans | src/android/mono/table/data/MemInfo.java:47-48 | a line yields exactly three spans |
| MemInfo.RunSkips | src/android/mono/table/data/MemInfo.java:45-71 | chars that neither end a key nor a line only advance `i` |
| MemInfo.SkipSpacesAt | src/android/mono/table/data/MemInfo.java:52-54 | the blanks end at the first non-blank |
| MemInfo.ValueEndAt | src/android/mono/table/data/MemInfo.java:55-58 | the value ends at the first blank (or, corrected, line break) |
| MemInfo.LineText | src/android/mono/table/data/MemInfo.java:40-77 | a well-formed line laid out in the text has its key, blanks, value and rest where the parser meets them |
| MemInfo.RunKey | src/android/mono/table/data/MemInfo.java:46-50 | the key span runs from the line start through the colon |
| MemInfo.RunOnce | src/android/mono/table/data/MemInfo.java:45-71 | the loop from a cursor is the loop from the next one |
| MemInfo.RunValue | src/android/mono/table/data/MemInfo.java:51-62 | the value span covers exactly the value after the blanks |
| MemInfo.RunRest | src/android/mono/table/data/MemInfo.java:63-68 | the rest span runs from the value's end to the line break, which closes the row |
| MemInfo.RunBare | src/android/mono/table/data/MemInfo.java:63-68 | a line without a colon writes only column 2, with the whole line |
| MemInfo.RunKeyValue | src/android/mono/table/data/MemInfo.java:46-62 | key, colon, blanks and value write columns 0 and 1 |
| MemInfo.RunParts | src/android/mono/table/data/MemInfo.java:45-71 | a laid-out line is closed as one row with its three spans |
| MemInfo.RunLine | src/android/mono/table/data/MemInfo.java:45-71 | a well-formed line is closed as one row with the spans `AddLine` gives |
| MemInfo.LinesAt | src/android/mono/table/data/MemInfo.java:45-71 | consecutive lines lying in the text fit inside it |
| MemInfo.RunLines | src/android/mono/table/data/MemInfo.java:45-71 | consecutive well-formed lines are closed one row each with the spans `Updates` gives |
| MemInfo.WellFormedParses | src/android/mono/table/data/MemInfo.java:40-77 | a text of well-formed lines parses to one row per line, so the closing assertion holds, and row `r` holds the key-with-colon, value and rest spans of line `r` and nothing else is written |
| MemInfo.FlattenNewlines | src/android/mono/table/data/MemInfo.java:63 | well-formed lines hold one line break each, and their text ends in one |
| MemInfo.SwallowedLine | src/android/mono/table/data/MemInfo.java:56-58 | as written, on two lines whose values end their lines, the value scan swallows the line break, so only one row is closed for two lines and the closing assertion fails |
| MemInfo.SwallowFixed | src/android/mono/table/data/MemInfo.java:56-58 | the corrected scan, stopping also at a line break, closes both rows with values `1` and `2` |
| Cpu.SkipBlanks | src/android/mono/table/data/CPU.java:136-138 | the blank-skipping loop stops inside the text, at or after where it starts |
| Cpu.TokenEnd | src/android/mono/table/data/CPU.java:140-142 | the token scan stops inside the text, at or after where the token starts |
| Cpu.Step | src/android/mono/table/data/CPU.java:135-156 | one turn of the loop keeps the cursor well shaped and either advances `i` or takes one more column in place |
| Cpu.Run | src/android/mono/table/data/CPU.java:134-157 | the loop ends at the end of the text or once `count` rows are closed |
| Cpu.Clamp | src/android/mono/table/data/CPU.java:129 | the row count is the smaller of the line count and `ap + 1` |
| Cpu.Passed | src/android/mono/table/data/CPU.java:134 | the part of the text the loop has passed is a prefix of it |
| Cpu.StepGood | src/android/mono/table/data/CPU.java:135-156 | one turn keeps every recorded span inside the text, in the eight columns and in rows below the lines already passed |
| Cpu.RunGood | src/android/mono/table/data/CPU.java:134-157 | so does the whole loop |
| Cpu.ParsedWithin | src/android/mono/table/data/CPU.java:127-163 | `parse` writes only the eight columns and existing rows, every span lies inside the text, and the corrected parser closes at most `min(count, ap + 1)` rows (as written, one more is possible) |
| Cpu.ScanToken | src/android/mono/table/data/CPU.java:136-142 | the two inner loops return where the blanks end and where the token ends |
| Cpu.Parse | src/android/mono/table/data/CPU.java:127-163 | the span arrays hold exactly the spans `Parsed` records and nothing else changes; the closing assertion holds exactly when the rows closed equal `min(count, ap + 1)` |
| Cpu.CloseLast | src/android/mono/table/data/CPU.java:158-162 | an unterminated last line is closed with the end of the text, as `Finish` says |
| Cpu.Scan | src/android/mono/table/data/CPU.java:130-157 | the loop ends in the cursor `Run` gives from the start, with its spans written into the arrays |
| Cpu.Turn | src/android/mono/table/data/CPU.java:135-156 | one turn of the imperative loop is `Step`, with the one cell it records written into the arrays |
| Cpu.Line.Chars | src/android/mono/table/data/CPU.java:120-125 | a `/proc/stat` line is its fields, the rest and a line break |
| Cpu.SkipBlanksAt | src/android/mono/table/data/CPU.java:136-138 | the blanks end at the first non-blank |
| Cpu.TokenEndAt | src/android/mono/table/data/CPU.java:140-142 | the token ends at the first whitespace char |
| Cpu.RunOnce | src/android/mono/table/data/CPU.java:134-157 | the loop from a cursor is the loop from the next one |
| Cpu.RunField | src/android/mono/table/data/CPU.java:135-146 | a field of blanks and a token is recorded as one span covering the token |
| Cpu.RunFields | src/android/mono/table/data/CPU.java:135-146 | consecutive fields are recorded one column each |
| Cpu.RunPass | src/android/mono/table/data/CPU.java:147-156 | past the eighth column the chars before the line break are passed over |
| Cpu.RunRest | src/android/mono/table/data/CPU.java:147-155 | the line break closes the row |
| Cpu.RunLine | src/android/mono/table/data/CPU.java:134-157 | a well-formed line is closed as one row with the spans `AddLine` gives |
| Cpu.RunLines | src/android/mono/table/data/CPU.java:134-157 | consecutive well-formed lines are closed one row each with the spans `Updates` gives |
| Cpu.SpanText | src/android/mono/table/data/CPU.java:178 | the chars a span covers are as many as its length |
| Cpu.CellText | src/android/mono/table/data/CPU.java:143-144 | the span recorded for field `k` of line `r` covers that field's token |
| Cpu.StatRun | src/android/mono/table/data/CPU.java:129-157 | on `ap + 1` well-formed lines the loop closes one row per line and stops after the last |
| Cpu.StatRows | src/android/mono/table/data/CPU.java:127-163 | on a text whose first `ap + 1` lines are well formed the corrected parser closes exactly `ap + 1` rows with the lines' spans; as written it does so exactly when the text ends with a line break |
| Cpu.StatCells | src/android/mono/table/data/CPU.java:127-163 | the corrected parser fills exactly the cells of the eight columns and `ap + 1` rows, each covering its field's token |
| Cpu.StatKey | src/android/mono/table/data/CPU.java:143-150 | the spans of well-formed lines fill exactly the eight columns of their rows |
| Cpu.FinishAfterCount | src/android/mono/table/data/CPU.java:158-163 | as written, on the text `"\n\nb"` of a one-processor device (two rows wanted), `parse` closes three rows and its assertion fails; the corrected parser closes two |
| CpuStats.SetCounter | src/android/mono/table/data/CPU.java:184-191 | storing field `r` sets that counter and leaves the other counters, the processor number, the busy share and the timestamp alone |
| CpuStats.Tenths | src/android/mono/table/data/CPU.java:236 | the rounded busy share is an `int`, and 0 when no tick passed |
| CpuStats.Load | src/android/mono/table/data/CPU.java:229-237 | the busy share is an `int` |
| CpuStats.TenthsWithin | src/android/mono/table/data/CPU.java:236 | for busy ticks between none and all, the share is between 0 and 1000 tenths of a percent and is the exact share rounded half up |
| CpuStats.LoadWithin | src/android/mono/table/data/CPU.java:229-237 | between two reads of growing counters the busy share lies in [0, 100] percent, is the rounded exact share of busy ticks (user, nice, system, irq, softirq against idle and iowait), and is 0 when no tick passed |
| CpuStats.DeltaOf | src/android/mono/table/data/CPU.java:207-226 | one slot of `delta` keeps the processor number and yields `long` values |
| CpuStats.Deltas | src/android/mono/table/data/CPU.java:205-227 | `delta` is `DeltaOf` slot by slot, one result per processor slot |
| CpuStats.MillisWithin | src/android/mono/table/data/CPU.java:211 | the elapsed milliseconds are the elapsed nanoseconds divided by a million, rounded down |
| CpuStats.RateWithin | src/android/mono/table/data/CPU.java:213-219 | a counter's growth times 1000 over the elapsed milliseconds is its rate per second, rounded down |
| CpuStats.DeltaCounter | src/android/mono/table/data/CPU.java:213-219 | with at least one millisecond elapsed, every counter of the delta is the rate of that counter |
| CpuStats.DeltaShape | src/android/mono/table/data/CPU.java:209-225 | the delta keeps the processor number; with time elapsed it keeps the busy share and the elapsed nanoseconds, otherwise it is cleared and stamped with the current time |
| CpuStats.DeltaRates | src/android/mono/table/data/CPU.java:213-219 | for growing counters every delta counter is a per-second rate of that counter's growth |
| CpuStats.DeltaPerSecond | src/android/mono/table/data/CPU.java:205-220 | between reads at least a millisecond apart, the delta holds each counter's growth per second, the busy share and the elapsed nanoseconds |
| CpuStats.DeltaTooSoon | src/android/mono/table/data/CPU.java:221-225 | between reads less than a millisecond apart, the delta is cleared and stamped with the current time |
| CpuStats.Slot | src/android/mono/table/data/CPU.java:179-181 | the slot a line selects is an `int`: -1 when its first token does not start with "cpu", 0 on the first line, otherwise one past the processor number |
| CpuStats.LineStats | src/android/mono/table/data/CPU.java:175-200 | one line of `textToStats` changes at most the slot it selects and keeps the number of slots |
| CpuStats.Lines | src/android/mono/table/data/CPU.java:174-201 | the outer loop keeps the number of slots |
| CpuStats.Reset | src/android/mono/table/data/CPU.java:169-173 | the first loop keeps the number of slots |
| CpuStats.StatsOf | src/android/mono/table/data/CPU.java:167-201 | `textToStats` keeps the number of slots |
| CpuStats.ClearSlots | src/android/mono/table/data/CPU.java:169-173 | the first loop clears the counters and busy share of the first `n` slots and stamps them with the clock reading |
| CpuStats.LineToStats | src/android/mono/table/data/CPU.java:175-200 | one pass of the outer loop leaves the slots `LineStats` gives and reports the exception it ends in |
| CpuStats.Fields | src/android/mono/table/data/CPU.java:177-195 | the inner loop over the eight fields of a line sets the selected slot's processor number and counters as `Counters` says |
| CpuStats.Counts | src/android/mono/table/data/CPU.java:185-191 | fields 1 to 7 are parsed into the selected slot in order until one fails; other slots are unchanged |
| CpuStats.LineStatsFails | src/android/mono/table/data/CPU.java:179-184 | a first token that cannot be read or parsed, or selects a slot past the last, ends the pass with that exception and changes nothing |
| CpuStats.LineStatsSkips | src/android/mono/table/data/CPU.java:179-182 | a line whose first token does not start with "cpu" changes nothing |
| CpuStats.LineStatsCounted | src/android/mono/table/data/CPU.java:182-200 | a line that selects a slot sets its counters, then its busy share once the previous aggregate has ticks |
| CpuStats.FirstField | src/android/mono/table/data/CPU.java:178-184 | the first field picks the slot as `Slot` says and stores the processor number |
| CpuStats.SlotOf | src/android/mono/table/data/CPU.java:179-181 | the imperative slot choice equals `Slot` |
| CpuStats.NextField | src/android/mono/table/data/CPU.java:185-191 | one more field is parsed into the slot, or its exception is reported |
| CpuStats.TextToStats | src/android/mono/table/data/CPU.java:167-203 | the slots end as `StatsOf` says with its exception reported; without exception `delta` then holds `Deltas` of the new and previous slots, otherwise it is unchanged |
| CpuStats.LinesStep | src/android/mono/table/data/CPU.java:174-201 | without an exception so far, one more line is one more `LineStats` |
| CpuStats.LinesStop | src/android/mono/table/data/CPU.java:174-201 | once a line throws, the later lines change nothing |
| CpuStats.Delta | src/android/mono/table/data/CPU.java:205-227 | the loop of `delta` fills every slot with `Deltas` of the current and previous reads |
| CpuStats.DeltaSlot | src/android/mono/table/data/CPU.java:208-225 | one pass of that loop is `DeltaOf` |
| CpuStats.CountersRead | src/android/mono/table/data/CPU.java:185-191 | when every remaining field parses, each counter holds its field's value |
| CpuStats.CountersStop | src/android/mono/table/data/CPU.java:185-191 | the first field that fails to parse ends the line with its exception |
| CpuStats.CountersKeep | src/android/mono/table/data/CPU.java:185-191 | fields before the first one read keep their counters |
| CpuStats.AggregateSlot | src/android/mono/table/data/CPU.java:180 | the first line, when it starts with "cpu", fills slot 0 |
| CpuStats.ProcessorSlot | src/android/mono/table/data/CPU.java:180 | a later line `cpuK` fills slot `K + 1` |
| CpuStats.OtherLineIgnored | src/android/mono/table/data/CPU.java:179-182 | a line not starting with "cpu" selects no slot and changes nothing |
| CpuStats.CountedLine | src/android/mono/table/data/CPU.java:175-200 | a line that selects slot `cpu` and whose fields all parse sets that slot's processor number to `cpu - 1`, its seven counters to the fields, and its busy share against the previous read when the previous aggregate has ticks; no other slot changes |
| CpuStats.LoadIgnoresLoad | src/android/mono/table/data/CPU.java:229-237 | the busy share does not depend on the stored busy share |
| CpuStats.CountersFit | src/android/mono/table/data/CPU.java:185-191 | parsed counters stay in the `long` range |
| CpuStats.LineStatsFit | src/android/mono/table/data/CPU.java:175-200 | one line keeps every slot in the `long` and `int` ranges |
| CpuStats.StatsOfFit | src/android/mono/table/data/CPU.java:167-201 | `textToStats` keeps every slot in range |
| CpuStats.DeltasFit | src/android/mono/table/data/CPU.java:205-227 | `delta` keeps every slot in range |
| CpuTable.AllIsNotNumber | src/android/mono/table/data/CPU.java:100 | "all" does not parse as a number, so the aggregate's processor cell is never mistaken for a processor number |
| CpuTable.Table.Current | src/android/mono/table/data/CPU.java:168 | `stats[ix]` is one of the two slot arrays |
| CpuTable.Table.Previous | src/android/mono/table/data/CPU.java:197 | `stats[1 - ix]` is the other one |
| CpuTable.Table.constructor | src/android/mono/table/data/CPU.java:61-72 | `ap + 1` zeroed slots in each of the two generations and in `delta`, with eight span columns in the engine |
| CpuTable.Table.Columns | src/android/mono/table/data/CPU.java:74-76 | the labels, the aggregate and one column per processor: `ap + 2` |
| CpuTable.Table.Rows | src/android/mono/table/data/CPU.java:78 | nine rows, one per label |
| CpuTable.Table.GetText | src/android/mono/table/data/CPU.java:80-112 | while measuring the widest cell; column 0 the row labels; a row outside the nine nothing; a column past the slots an index error; otherwise the processor as "all" or its number, each counter as a decimal that parses back to it, and the busy share |
| CpuTable.Table.Read | src/android/mono/table/data/ProcFS.java:166-195 | for `/proc/stat`: a read that throws (empty file, failed assertion, unparsable field) publishes nothing and every cell shows what it showed; otherwise the loaded generation is published, its slots are `StatsOf` the first `min(lines, ap + 1)` lines against the previous slots, and `delta` is `Deltas` of the two |
| CpuTable.Table.Load | src/android/mono/table/data/ProcFS.java:166-193 | the file is loaded into the current generation with the slots and rates untouched; an empty file fails with an index error |
| CpuTable.Table.Commit | src/android/mono/table/data/CPU.java:127-203 | `parse`, `textToStats` and `delta`, then publishing: on failure nothing is published and the previous slots and rates stay; on success the new slots and rates are as in `Read` |
| CpuTable.Table.Swap | src/android/mono/table/data/ProcFS.java:195 | publishing swaps the span generations and the slot generations together, changing no contents |
| CpuTable.Table.Lay | src/android/mono/table/data/CPU.java:127-163 | `parse` lays out spans for `min(lines, ap + 1)` rows when its assertion holds, touching no slots |
| CpuTable.Table.Derive | src/android/mono/table/data/CPU.java:164-203 | the current slots become `StatsOf` the laid-out lines; `delta` becomes `Deltas` unless a field throws; the previous slots stay |
| CpuTable.NewEngine | src/android/mono/table/data/CPU.java:62 | a fresh engine of eight span columns at generation 0 |
| CpuTable.NewSlots | src/android/mono/table/data/CPU.java:63-71 | a fresh array of `n` zeroed slots |
| CpuTable.CellsShown | src/android/mono/table/data/CPU.java:80-112 | every cell inside `columns()` by `rows()` can be shown without an exception |
| WordList.Scan | src/android/mono/table/data/Words.java:171-179 | the start of the open row never lies before the first char the loop reads nor past the index reached |
| WordList.WordAt | src/android/mono/table/data/Words.java:130 | the word of a row inside the text has the row's length |
| WordList.ScanCount | src/android/mono/table/data/Words.java:173-179 | the loop closes one row per line break it passes |
| WordList.LayoutCount | src/android/mono/table/data/Words.java:163-185 | the rows laid out are exactly as many as the lines counted: line breaks plus one for an unterminated last line |
| WordList.ScanInside | src/android/mono/table/data/Words.java:173-179 | with the corrected length, every closed row lies inside the text and holds no line break |
| WordList.ScanSpells | src/android/mono/table/data/Words.java:173-179 | with the corrected length, the closed rows, each followed by a line break, spell the text read so far up to the open row |
| WordList.SpelledSnoc | src/android/mono/table/data/Words.java:173-179 | closing one more row spells that row's word and a line break after the earlier ones |
| WordList.LayoutInside | src/android/mono/table/data/Words.java:171-185 | the corrected layout has at least one row, every row inside the text and none holding a line break |
| WordList.LayoutSpells | src/android/mono/table/data/Words.java:171-185 | the corrected rows are the lines: their words joined by line breaks give back the text after the byte order mark (with a final break exactly when the text ends in one) |
| WordList.ScanBreak | src/android/mono/table/data/Words.java:174-178 | a line break closes the open row with the chars since its start and opens the next row after the break |
| WordList.ScanChar | src/android/mono/table/data/Words.java:173-174 | any other char changes nothing |
| WordList.CorrectedEndsAtText | src/android/mono/table/data/Words.java:187-188 | with the corrected length, the last row always ends at `len` or `len - 1`, so the closing assertion holds |
| WordList.ScanAsWritten | src/android/mono/table/data/Words.java:176 | as written, every row closed by a line break is one char shorter than the line |
| WordList.AsWrittenEndsAtText | src/android/mono/table/data/Words.java:176-188 | as written, the closing assertion holds exactly when the text does not end with a line break |
| WordList.ShortWord | src/android/mono/table/data/Words.java:176 | as written, the text "ab\ncd" shows its first word as "a"; corrected, as "ab" |
| WordList.TrailingBreakFails | src/android/mono/table/data/Words.java:176-188 | as written, the text "a\n" lays out one empty row that ends at 0, and the closing assertion fails; corrected, the row is "a" and ends at 1 |
| WordList.BomBytes | src/android/mono/table/data/Words.java:159 | the UTF-8 byte order mark accounts for 3 bytes or none |
| WordList.Preamble | src/android/mono/table/data/Words.java:159-167 | the checks before the count, in the source's order: too few bytes to test for the byte order mark and an empty char buffer throw index errors, a byte count that does not match the char count fails the ASCII assertion, an empty text throws at `chars[len - 1]`; otherwise the first row starts after a leading U+FEFF, if any |
| WordList.Words.constructor | src/android/mono/table/data/Words.java:67-69 | a new list has not been read: no chars, no span arrays, `once` false |
| WordList.Words.Columns | src/android/mono/table/data/Words.java:120-122 | two columns: the word and its length |
| WordList.Words.Rows | src/android/mono/table/data/Words.java:124-126 | the number of rows laid out; a null-pointer error before the list is read |
| WordList.Words.GetText | src/android/mono/table/data/Words.java:128-137 | a null-pointer error before the list is read, an index error for a row out of range; column 0 a window on the chars at the row's offset and length, any other column the row's length in decimal, which parses back to it |
| WordList.Words.Update | src/android/mono/table/data/Words.java:90-106 | the first call reads the list and then posts `done` if the read did not throw; every later call leaves the list alone and runs `done` |
| WordList.Words.Read | src/android/mono/table/data/Words.java:146-188 | keeps the decoded chars; a failing check of `Preamble` throws and leaves the arrays; otherwise fresh arrays hold the layout, one row per line, and the closing assertion fails only as written and only on a text ending with a line break |
| WordList.CellsShowLines | src/android/mono/table/data/Words.java:128-137 | after the corrected read, row `r` shows line `r` of the text (without its line break) and, in column 1, that line's length |
| WordList.CountBreaks | src/android/mono/table/data/Words.java:163-166 | the counting loop returns the number of line breaks in `chars[..len]` |
| WordList.Split | src/android/mono/table/data/Words.java:169-185 | the splitting loop fills the arrays with the layout, one row per counted line |
| WordList.NoBreakSkipped | src/android/mono/table/data/Words.java:160-172 | the byte order mark the loop skips is no line break, so skipping it loses no row |

## Left out

- Threads and monitors: the worker thread, `wait`/`notify`/`join`, `volatile` and `AtomicInteger` visibility, and Words' background thread are not modelled; the mailbox is a sequence of explicit steps and Words' read runs in the caller.
- Posting to the main thread (`util.post`) is modelled as appending the callback to a `posted` list; running a callback in place (Words) appends it to `ran`.
- File I/O: `RandomAccessFile` (open, seek, read, close), `FileChannel.map` and `AssetFileDescriptor` are replaced by a `Source` holding the file's bytes and handing them out in chunks of at most a fixed size; `ProcFS.open`, `ProcFS.close` beyond its mailbox step, and `Words.open`/`Words.close` are not modelled, and an `IOException` cannot occur.
- `utf8.decode`, which `ProcFS.read` calls, is not part of this model; the model decodes with the decoder loop of `utf8.java` (`Utf8.Decoder`) over the whole buffer.
- Words' `Charset.decode` of the JDK is not part of this model: the decoded chars and their count are parameters of `WordList.Words.Read`.
- `CharArray` and `TextWrap` are not part of this model: the windows they give are modelled as `Text.CharSubSequence` values.
- Clocks: `System.nanoTime` is a parameter `now` (one reading per `read`, where the source reads the clock once per slot).
- Float arithmetic: the busy share is an integer number of tenths of a percent, and the float formatting of the `load` cell with its `'%'` is not modelled; the float and double conversions of `Numbers` (`convertDouble`, `convertFloat`, the digit generators) are left out.
- Drawing: `measure` and `bounds` of ProcFS, CPU and Words, `Rect`, `Paint` and the views are left out; CPU's `measuring` counter is a field that `getText` reads.
- `availableProcessors()` is the constructor parameter `ap` of `CpuTable.Table`.
- Android lifecycle, logging (`trace`), the `assertion` stack walk and stream redirection are left out; a failed `assertion` is the result `Err(AssertionFailed)`.
- The `self_time` calibration and trace printing of `timestamp` are left out; only its label pairing is modelled.
- Util.Equals: only two non-null sequences of one length are modelled; for other inputs the source calls itself without end.
- CpuStats.Tenths: `Math.round(busy * 1000f / total)` is modelled in exact integer arithmetic, without the float rounding error of very large tick counts.
- CpuTable.Table.GetText: the busy-share cell is its number of tenths of a percent, not the float text the source appends.
- CpuTable.Table.Read: on failure it states which exception only for an empty file; the other failures (the closing assertion of `parse`, a field that does not parse) are stated by `CpuTable.Table.Commit` and `CpuStats.TextToStats`.
- Stats are values in arrays (one `Stats` per slot) rather than objects with mutable fields; no two slots share an object in the source either.
- The shared `Text` buffers that `getText` of CPU and Words reuse between calls are not modelled: each call returns a fresh value.
- Numbers.ParseLong: a digit is an ASCII digit, as `JavaLang.Digit` restricts `Character.digit`; the other Unicode decimal digits (general category Nd, such as U+0663) that `Character.digit` also accepts are rejected with `NumberFormatException` here. The core parses only `/proc` text, which is ASCII.
- Numbers.AccumulateNegative: follows the same ASCII-only digit test, so a Unicode Nd digit ends the accumulation with `NumberFormatException` where the source would take its value.
- Numbers.ParseLong: a window reaching past the end of the sequence (`offset + length > s.length()`) is excluded by a precondition; the source throws `StringIndexOutOfBoundsException` at the first `charAt` past the end, which the model does not state.
- Utf8.Decoder: windows reaching past their arrays (`offset + byteCount > d.length`, `s + len > v.length`) are excluded by preconditions; the source throws `ArrayIndexOutOfBoundsException` at the first access past the end, or returns normally when decoding stops before reaching it, which the model does not state.
- Utf8.Encoder: an input window reaching past `chars` (`offset + length > chars.length`) is excluded by a precondition; the source throws `ArrayIndexOutOfBoundsException` at the first char past the end, which the model does not state.
- ProcFS.Source.Read: returns at most the source's fixed chunk size per call, one of the schedules a pseudo-file may use.
- Indices are unbounded integers in the model where the source's arrays cannot reach 2^31 elements; wrap-around is modelled where it can happen (the generation counter, the processor slot cast, `long` counters and rates).

## Findings

| source | as written | input that shows it | evidently intended | confidence | as-written member | corrected member |
|---|---|---|---|---|---|---|
| src/android/mono/table/etc/Numbers.java:77 | the digit buffer holds 64 chars | `appendLong(Long.MIN_VALUE, 2)` needs a sign and 64 digits, 65 chars, and writes past the buffer | a buffer that fits every `long` in every radix | not executed | Numbers.SourceBufferTooShort | Numbers.RenderFitsBuffer |
| src/android/mono/table/etc/utf8.java:240-242 | the encoder takes any char with bit 0x400 set after a high surrogate for its low half | the chars U+D800 U+0400 encode to F0 82 A0 80, which decodes to U+2800 | a low-surrogate test (U+DC00..U+DFFF, section 2.2 of RFC 2781), so the lone high surrogate is written as `'?'` like any other unpaired surrogate | not executed | Utf8.TrailTestCounterexample | Utf8.EncodeChecked, Utf8.EncodeCheckedRoundTrip |
| src/android/mono/table/data/ProcFS.java:195 | `ix = ai.incrementAndGet() % 2` | after 2^31 + 1 reads the counter is `Integer.MIN_VALUE + 1`, and the index is -1 | an index that stays 0 or 1 and alternates on every read | not executed | ProcFS.GenerationAsWrittenGoesNegative | ProcFS.Generation, ProcFS.GenerationAlternates |
| src/android/mono/table/data/MemInfo.java:56-58 | the value scan stops at a blank only | `"a: 1\nb: 2\n"`: the first value runs on into the next line, one row is closed for two lines, and the assertion `n == count` fails | a value that also ends at the line break (as for unit-less lines such as `HugePages_Total:` in `/proc/meminfo`) | not executed | MemInfo.SwallowedLine | MemInfo.SwallowFixed, MemInfo.WellFormedParses |
| src/android/mono/table/data/CPU.java:158-163 | an unterminated last line is closed even when the loop stopped after `count` rows | `"\n\nb"` with `ap == 1`: two rows are wanted, three are closed, and the assertion `n == count` fails | close the last line only while rows are still wanted | not executed | Cpu.FinishAfterCount | Cpu.StatRows, Cpu.ParsedWithin |
| src/android/mono/table/data/Words.java:176 | a line closed by `'\n'` gets the length `i - 1 - start` | `"ab\ncd"` shows its first word as `"a"`; `"a\n"` fails the closing assertion | the length `i - start`, for which the closing assertion's `len - 1` case holds; the source's length is right only for a list with CR LF line ends and no final break | not executed | WordList.ShortWord, WordList.TrailingBreakFails, WordList.AsWrittenEndsAtText | WordList.LayoutSpells, WordList.CorrectedEndsAtText, WordList.CellsShowLines |
