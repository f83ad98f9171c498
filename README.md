# WPILog decoder and fixed-period resampler

This project models the core of a robot-log analyzer in Dafny: the decoder
for the WPILib data log format (`.wpilog`) and the step that turns the
decoded samples into a table at a fixed period.

The decoder reads a byte buffer. It checks the 6-byte magic `WPILOG`, then
runs a loop over records. Each record starts with a kind byte and a
little-endian signed 64-bit timestamp.

- A **control** record (kind 0) carries one subtype byte. Start (0) sets
  the log's start time, and any other subtype is ignored.
- A **metadata** record (kind 1) carries two length-prefixed strings, a key
  and a payload. The keys `entry` and `type` map the integer before the
  first `;` of the payload to the channel name or the type name after it.
- A **data** record (kind 2) carries a u16 id and a payload. The payload is
  decoded by the type declared for that id, and the record yields one entry
  `(timestamp, name, value)`.

The loop stops at an unknown kind, at an unknown id, and at any decoding
error. The source prints a message and breaks out of the loop; the model
returns the reason as a halt (`Decoder.Halt`). Either way the entries read so
far are kept.

The payload decoder `parse_value` handles ten type names:

- the scalars `boolean`, `int`, `float`, `double` and `string`;
- their arrays, each with a u32 element count.

The resampler works on the entries:

- it groups them by channel name;
- it lays a grid of times from the first to the last timestamp;
- for every grid point and every channel, in sorted-name order, it writes
  the value of the nearest sample, found by two scans that assume
  time-ordered samples (ties go to the earlier sample);
- it reports statistics.

Modules:

- `Results`: option and result types.
- `Bytes`: little-endian integers and 64-bit two's complement.
- `Text`: `str.split(';', 1)` and `int()` on the id text.
- `Values`: `read_string` and `parse_value`.
- `ValueEncoding`: the writer's side of payloads, used to state round trips.
- `Decoder`: the record step, the loop, the `WPILogMetadata` class and `parse_wpilog`.
- `LogEncoding`: the writer's side of record streams, and the round trip of whole logs.
- `Ordering`: Python's string order and `sorted`.
- `Resampler`: the in-memory part of `generate_csv`.

Every loop of the source is a method with a `while` loop. Each is proved
equal to a specification function, and the properties are proved about
those functions:

- `ParseValue` against `DecodeValue`;
- `ParseWpilog` against `Decode`;
- `ScanBefore` and `ScanAfter` against `Before` and `After`;
- `GenerateCsv` against `Table`.

`WPILogMetadata` is a class whose three fields the loop updates in place.

The decoder follows the record layout the source reads, which is not the
layout of the WPILib data log specification. That specification puts a
version and an extra-header string after the magic, gives each record a
variable-width header with an entry id and a payload size, and prefixes
strings with a u32 length. The source reads the 6-byte magic and then
records made of a kind byte, an 8-byte timestamp and a body, with
u16-prefixed strings and no payload sizes. The model follows the source.

`read_string` does not check that a string's bytes lie inside the buffer: it
cuts the slice at the end of the buffer and still advances the offset by the
declared length. The model follows the code (`Values.ReadString`,
`Values.ReadStringCutShort`, `Decoder.CutStringRecord`).

## Model

| member | source | states |
|---|---|---|
| Bytes.LittleEndianOfBytes | wpilog_processor.py:33 | reading back the little-endian bytes of `n` gives `n` (the `struct` `<H`/`<I`/`<q` layout) |
| Bytes.BytesOfLittleEndian | wpilog_processor.py:33 | writing the value of a byte group gives the same bytes back |
| Bytes.Unsigned64 | wpilog_processor.py:122 | the unsigned 64-bit pattern of a signed timestamp, which `Signed64` turns back into it (`<q` is two's complement) |
| Bytes.I64At | wpilog_processor.py:122 | the `<q` read of 8 bytes lies in the signed 64-bit range |
| Text.SplitFirst | wpilog_processor.py:142 | `split(';', 1)` fails exactly when there is no `;`; otherwise the parts rejoin to the payload, and the first part has no `;` |
| Text.StripLeft | wpilog_processor.py:143 | the whitespace `int()` ignores in front (space, `\t`, `\n`, `\v`, `\f`, `\r`; not the separators `\x1c`-`\x1f`): only those are dropped, and the rest starts with none of them |
| Text.SeparatorRaises | wpilog_processor.py:143 | a text that starts with one of the separators `\x1c`-`\x1f` raises, whatever follows (`int("\x1c7")`): they are not stripped as whitespace |
| Text.StripRight | wpilog_processor.py:143 | the same at the end of the text |
| Text.ParseInt | wpilog_processor.py:143 | `int(entry_id)` succeeds only on text holding a digit |
| Text.ParseStripped | wpilog_processor.py:143 | once the whitespace is stripped, an accepted text ends in a digit |
| Text.StripLeftSpaces | wpilog_processor.py:143 | whitespace in front of a non-space is exactly what is stripped |
| Text.StripRightSpaces | wpilog_processor.py:143 | whitespace after a non-space is exactly what is stripped |
| Text.StripSplit | wpilog_processor.py:143 | stripping removes whitespace at both ends and nothing else |
| Text.ParseIntAccepts | wpilog_processor.py:143 | whitespace, an optional `+` or `-`, digits with single underscores between digits, and whitespace are accepted, and the result is the signed value of the digits (`" 7\t"` is 7, `"-7"` is -7, `"1_0"` is 10) |
| Text.ParseIntSound | wpilog_processor.py:143 | conversely, every text `int()` accepts has that form and gives that value, so anything else (`"1__0"`, `"7a"`, `""`) raises |
| Text.StrippedSplit | wpilog_processor.py:143 | a stripped text that is accepted splits into a sign and well-formed digits |
| Text.ParseIntOfDecimal | wpilog_processor.py:143 | `int()` reads any id written in decimal back as that id |
| Text.SplitAtFirst | wpilog_processor.py:142 | `split(';', 1)` of a text without `;`, then `;`, then anything gives back exactly those two parts |
| Text.SplitFirstAfterDigits | wpilog_processor.py:142 | `split(';', 1)` of `id;text` gives the id digits and `text` whole, even when `text` holds `;` |
| Values.TypeOf | wpilog_processor.py:42-96 | a recognized type name is the name of the type it gives |
| Values.TypeOfName | wpilog_processor.py:42-96 | each of the ten types is recognized by its own name |
| Values.ReadString | wpilog_processor.py:31-37 | fails as truncated exactly when the length prefix is missing; otherwise the bytes decoded are the declared length's worth after the prefix, cut at the end of the buffer, it succeeds exactly when `utf8` accepts them, the text is what `utf8` gives, and the offset moves past the prefix by the declared length |
| Values.ReadStringCutShort | wpilog_processor.py:31-37 | a string whose declared length runs past the buffer still reads, as what is left of the buffer, and the offset ends past the end of the buffer |
| Values.StringsEnd | wpilog_processor.py:88-94 | where `n` length-prefixed strings from `p` end: at least two bytes per string further on |
| Values.ReadStrings | wpilog_processor.py:88-94 | `n` successive `read_string` calls give `n` strings and end where the declared lengths say; when a length prefix is missing they fail |
| Values.FixedArrayAt | wpilog_processor.py:56-87 | a fixed-width array reads exactly when its u32 count and all its elements lie in the buffer; it gives the declared count of elements, read in order, and ends right after them |
| Values.StringArrayAt | wpilog_processor.py:88-94 | a `string[]` fails as truncated without its count, fails when the strings' length prefixes run out, and otherwise gives the declared count of strings and ends where their declared lengths say |
| Values.DecodeValue | wpilog_processor.py:40-98 | an unknown type name raises; a success moves the offset forward, gives a scalar for a scalar type, advancing by the type's width, and a list of the declared u32 count for an array type; a fixed-width scalar or array decodes exactly when its bytes lie in the buffer; a string array ends where its strings' declared lengths say |
| Values.ReadFixedArray | wpilog_processor.py:56-87 | the `for _ in range(length)` loop of a fixed-width array equals the array read of the specification |
| Values.ReadStringArray | wpilog_processor.py:88-94 | the `string[]` loop equals `length` successive `read_string` calls |
| Values.ParseValue | wpilog_processor.py:40-98 | the method returns exactly `DecodeValue` |
| ValueEncoding.ReadEncodedString | wpilog_processor.py:31-37 | a length-prefixed string reads back, and the offset ends right after it |
| ValueEncoding.ReadEncodedStrings | wpilog_processor.py:88-94 | encoded strings laid end to end read back in order |
| ValueEncoding.DecodeEncodedValue | wpilog_processor.py:40-98 | decoding a payload written for type `t` with `t`'s name gives the payload back and ends at its end |
| ValueEncoding.DecodeEncodedValueIn | wpilog_processor.py:40-98 | the same round trip with any bytes before and after the payload |
| Decoder.ApplyMetadata | wpilog_processor.py:141-146 | other keys change nothing; `entry`/`type` without `;` fail; on success the id before the first `;` maps to the text after it, in the names or the types |
| Decoder.ApplyMetadataDeclares | wpilog_processor.py:141-146 | an `entry`/`type` payload is cut at its first `;`: when `int()` accepts the text before it (`" 7"`, `"+7"`, `"0_7"`), that id maps to the text after it, in the names or the types; when `int()` refuses it, the record raises |
| Decoder.ControlRecord | wpilog_processor.py:125-134 | the control body is read exactly when its subtype byte is in the buffer; it yields nothing, and only a Start record changes the table, setting the start time to the record's timestamp |
| Decoder.MetadataRecord | wpilog_processor.py:136-146 | the metadata body yields nothing, keeps the start time, moves past two length prefixes at least, and stops the loop only by raising |
| Decoder.DataRecord | wpilog_processor.py:148-160 | a short id raises; an id missing from either table stops the loop; a record that is read keeps the tables and yields one entry with the record's timestamp and the id's name, and at least one payload byte lies in the buffer |
| Decoder.Step | wpilog_processor.py:117-166 | a record that is read advances past kind and timestamp and yields at most one entry, only from a data record that takes at least 12 bytes of the buffer; a short prefix raises; a kind above 2 stops the loop |
| Decoder.Run | wpilog_processor.py:117-168 | the loop never drops entries, and each entry it appends uses up at least 12 bytes of the buffer |
| Decoder.CutStringRecord | wpilog_processor.py:117-157 | a `string` data record whose declared text runs past the buffer appends one entry holding what is left of the buffer, and the loop then ends without a halt |
| Decoder.ControlStep | wpilog_processor.py:125-134 | a control record consumes one byte; Start sets the start time to the record's timestamp; other subtypes change nothing |
| Decoder.MetadataStep | wpilog_processor.py:136-146 | a metadata record that is read consists of two strings and updates the tables as `ApplyMetadata` says, yielding nothing |
| Decoder.MetadataRead | wpilog_processor.py:136-146 | conversely, two readable strings with an accepted payload form a record that is read |
| Decoder.DataStep | wpilog_processor.py:148-157 | a data record that is read names an id known to both tables; it yields one entry with the record's timestamp, the id's name and the value decoded by the id's type; the tables stay the same |
| Decoder.UnknownIdStep | wpilog_processor.py:152-160 | a data record whose id is missing from either table stops the loop |
| Decoder.Decode | wpilog_processor.py:109-114 | decoding fails exactly when the magic `WPILOG` is missing |
| Decoder.RunStop | wpilog_processor.py:158-166 | a record that stops the loop returns the tables and entries read so far, with the reason |
| Decoder.RunContinue | wpilog_processor.py:117-163 | a record that is read continues the loop after it, with its entry appended |
| Decoder.RunExtends | wpilog_processor.py:157 | the loop only appends entries |
| Decoder.RunFrom | wpilog_processor.py:117-168 | the entries read from an offset on do not depend on those read before it |
| Decoder.WpiLogMetadata.constructor | wpilog_processor.py:18-28 | new metadata has empty tables and no start time |
| Decoder.WpiLogMetadata.SetStart | wpilog_processor.py:130 | sets the start time and nothing else |
| Decoder.WpiLogMetadata.SetName | wpilog_processor.py:143 | maps an id to a name and nothing else |
| Decoder.WpiLogMetadata.SetType | wpilog_processor.py:146 | maps an id to a type name and nothing else |
| Decoder.ReadControl | wpilog_processor.py:125-134 | the control branch updates the metadata object as `ControlRecord` says |
| Decoder.ReadMetadata | wpilog_processor.py:136-146 | the metadata branch updates the object as `MetadataRecord` says; on an exception the object is left unchanged |
| Decoder.ReadData | wpilog_processor.py:148-160 | the data branch yields the entry `DataRecord` gives and leaves the object unchanged |
| Decoder.ParseWpilog | wpilog_processor.py:101-168 | fails exactly when `Decode` does; otherwise the fresh metadata object holds the tables and the list holds the entries that `Decode` gives |
| LogEncoding.ValidWritable | wpilog_processor.py:117-163 | a stream that resolves can be written |
| LogEncoding.HeaderAt | wpilog_processor.py:119-123 | a written record prefix reads back as its kind and timestamp |
| LogEncoding.ApplyDeclaration | wpilog_processor.py:141-146 | an `id;text` payload maps `id` to `text` |
| LogEncoding.StepEncoded | wpilog_processor.py:117-163 | one written record reads back in one pass of the loop, ending where the record ends, with the table change and entry the writer intended |
| LogEncoding.RunPastRecord | wpilog_processor.py:117-163 | the loop reads a written record and continues from its end |
| LogEncoding.RunEncoded | wpilog_processor.py:117-168 | a written stream of records reads back to the end of the buffer with no stop, giving the declared tables and all its entries |
| LogEncoding.LogLayout | wpilog_processor.py:109-114 | a written log starts with the magic and holds its records right after it |
| LogEncoding.DecodeEncodedLog | wpilog_processor.py:101-168 | `parse_wpilog` of a written log returns exactly the tables and the entries its records declare |
| LogEncoding.EmittedSamples | wpilog_processor.py:148-157 | each data record yields exactly one entry, in order, with its timestamp and value |
| LogEncoding.NoStartKeeps | wpilog_processor.py:129-132 | without a Start record the start time stays as it was |
| LogEncoding.LastStartWins | wpilog_processor.py:129-130 | the start time is that of the last Start record |
| Ordering.StrLess | wpilog_processor.py:201 | a proper prefix sorts first, and no text sorts before its own prefix |
| Ordering.StrLessIrreflexive | wpilog_processor.py:201 | no name sorts before itself |
| Ordering.StrLessTransitive | wpilog_processor.py:201 | the name order is transitive |
| Ordering.StrLessTotal | wpilog_processor.py:201 | two different names are ordered one way round |
| Ordering.StrLessAsymmetric | wpilog_processor.py:201 | and only one way round |
| Ordering.SortNames | wpilog_processor.py:201 | `sorted` on distinct names gives them in increasing order, as a permutation |
| Ordering.Insert | wpilog_processor.py:201 | inserting a new name into a sorted sequence keeps it sorted and adds exactly that name |
| Ordering.FindSlot | wpilog_processor.py:201 | the insertion point lies after every name below the new one and before the rest |
| Ordering.SortedDistinct | wpilog_processor.py:201 | a sorted sequence has no repeats |
| Ordering.SortedUnique | wpilog_processor.py:201 | two sorted sequences of the same names are equal |
| Ordering.SortedCount | wpilog_processor.py:201-202 | a sorted sequence holds as many names as it is long |
| Resampler.Series | wpilog_processor.py:174-178 | a channel has no more samples than the log has entries, and an entry of the channel becomes its last sample |
| Resampler.SeriesOfName | wpilog_processor.py:174-178 | a channel has samples exactly when its name occurs, and each sample comes from an entry of that name |
| Resampler.GroupEntries | wpilog_processor.py:174-178 | the dictionary's keys are the names that occur; each maps to its channel's samples in stream order; the key order lists each name once |
| Resampler.MinTime | wpilog_processor.py:185 | the start time is a timestamp of some entry and no entry is earlier |
| Resampler.MaxTime | wpilog_processor.py:186 | the end time is a timestamp of some entry and no entry is later |
| Resampler.Grid | wpilog_processor.py:189-194 | every grid point lies between the start and the end |
| Resampler.BuildGrid | wpilog_processor.py:189-194 | the `while current_time <= end_time` loop builds exactly the grid |
| Resampler.GridLoop | wpilog_processor.py:189-194 | the loop as written, for any period, over a bounded number of passes: at most one point per pass, and when it ends no point is past the end |
| Resampler.GridLoopNeverEnds | wpilog_processor.py:189-194 | with a period of zero or less the loop appends a point on every pass and never ends |
| Resampler.GridLoopEnds | wpilog_processor.py:189-194 | with a positive period and enough passes the loop ends with exactly the grid |
| Resampler.GridPoint | wpilog_processor.py:189-194 | the k-th grid point is `start + k*period` and is not past the end |
| Resampler.GridLength | wpilog_processor.py:189-194 | the grid is empty only when start is past end, and one more period after its last point would pass the end |
| Resampler.TakenFromFront | wpilog_processor.py:213-218 | the front scan takes a run of samples at or before `t` and stops at the first later one |
| Resampler.TakenFromBack | wpilog_processor.py:221-226 | the back scan takes a run of samples at or after `t` and stops at the first earlier one |
| Resampler.Before | wpilog_processor.py:211-218 | `before` is missing exactly when there are no samples or the first is later than `t`; otherwise it is a sample at or before `t` |
| Resampler.After | wpilog_processor.py:220-226 | `after` is missing exactly when there are no samples or the last is earlier than `t`; otherwise it is a sample at or after `t` |
| Resampler.ScanBefore | wpilog_processor.py:211-218 | the loop with `break` gives `Before` |
| Resampler.ScanAfter | wpilog_processor.py:220-226 | the loop over `reversed` with `break` gives `After` |
| Resampler.Choose | wpilog_processor.py:228-238 | the cell is empty exactly when both scans found nothing; the choice is one of the two; between a sample before and one after `t` the nearer wins, and `before` on a tie |
| Resampler.CellOf | wpilog_processor.py:228-244 | the cell is `Blank` (written `""`) exactly when nothing was chosen, and a rendered list (`Text`) exactly when a list was chosen |
| Resampler.Resample | wpilog_processor.py:208-242 | a channel's cell at a grid time is the cell of the chosen sample |
| Resampler.BuildRow | wpilog_processor.py:204-244 | a row is the grid time followed by one cell per sorted channel |
| Resampler.BuildRows | wpilog_processor.py:204-246 | one row per grid point, in grid order |
| Resampler.SortedChannels | wpilog_processor.py:201-202 | the sorted keys are the channel order and each names a group |
| Resampler.Table | wpilog_processor.py:171-264 | the header is `Timestamp` and the names; `rows` counts the rows; the statistics count every entry and every column name; each row has the grid time and one cell per channel |
| Resampler.GenerateCsv | wpilog_processor.py:171-264 | the period defaults to 20 ms (`DEFAULT_PERIOD`); there is no table exactly when there are no entries; otherwise the header is `Timestamp` and the names in sorted order, each name once, and the rows and statistics are the table |
| Resampler.ChannelOrderUnique | wpilog_processor.py:201-202 | the header is determined by the entries |
| Resampler.TableRow | wpilog_processor.py:189-206 | row k starts with the grid time `start + k*period`, which is not past the last timestamp, and has one cell per channel |
| Resampler.TableCoverage | wpilog_processor.py:189-194 | there is at least one row, `rows` counts them, and the grid reaches the last timestamp |
| Resampler.TableStats | wpilog_processor.py:257-264 | the statistics count every entry and each name once, and give the first and last timestamps and the duration between them, which is never negative |
| Resampler.BeforeLatest | wpilog_processor.py:211-218 | on time-ordered samples `before` exists exactly when some sample is at or before `t`, and it is the latest such sample |
| Resampler.AfterEarliest | wpilog_processor.py:220-226 | on time-ordered samples `after` exists exactly when some sample is at or after `t`, and it is the earliest such sample |
| Resampler.PickNearest | wpilog_processor.py:228-238 | on time-ordered non-empty samples a sample is chosen, no sample is nearer, and on a tie the earlier sample wins |
| Resampler.PickNeedsOrder | wpilog_processor.py:213-226 | with samples out of time order a channel that has samples can give an empty cell |

## Left out

- File I/O: `open`/`read`, `process_file`, `process_directory`, `main`, `os.makedirs`, writing the CSV and every `print` are not modelled. The decoder works on a byte sequence, and the resampler stops at the header, the rows and the statistics.
- UTF-8 decoding is a parameter `utf8` that may fail, in which case `read_string` raises. The model's round trips use any encoder that `utf8` inverts.
- Python's `str()` of a list value is a parameter `render`.
- Floating point: `float` and `double` payloads are kept as their 4 or 8 raw bytes. IEEE-754 meaning is not modelled.
- Resampler.GenerateCsv: timestamps are the wire values in integer microseconds, not float seconds from `/ 1000000`. The period is an integer number of microseconds (20 ms is `DEFAULT_PERIOD`), so grid point k is exactly `start + k*period`. The source adds `period_s` to a float on every pass, and its grid times drift from `start + k*period`. So its Timestamp cells can differ in the last digits, the grid can have one point more or fewer, and a sample halfway between two grid neighbours can fall on either side of the tie rule at line 235. A period smaller than the float spacing of the timestamps never moves `current_time` on. None of this is modelled.
- Resampler.GenerateCsv: requires a positive period. The source does not check `period_ms`, and with a period of zero or less its grid loop never ends (see Findings).
- Text.ParseInt: models `int()` for ASCII text (surrounding space, `\t`, `\n`, `\v`, `\f` and `\r`, a sign, digits with single underscores); the separators `\x1c`-`\x1f` are not stripped, so `"\x1c7"` is refused as `int()` refuses it. Non-ASCII Unicode digits and whitespace are not modelled. CPython 3.11 and later also refuse, by default, to convert decimal text of more than 4300 digits, raising ValueError, which the loop catches and stops at. That limit depends on the interpreter version and settings, and the model accepts digit text of any length.
- Decoder.Step: the messages printed for an unknown control subtype, an unknown id, an unknown kind and a caught exception are not modelled. The reason the loop stopped is returned in `Parse.halt` instead.
- Decoder.ParseWpilog: the branches of the loop body are the methods `ReadControl`, `ReadMetadata` and `ReadData`. Each branch raises before it changes the metadata object, so a branch that fails leaves the object unchanged.
- Resampler.GenerateCsv: the inner loops are the methods `BuildRows`, `BuildRow`, `Resample`, `ScanBefore` and `ScanAfter`.
- LogEncoding: a `type` declaration may name any text, and only data records require a type the decoder knows. This matches the source, which stores any type text and fails only when a data record uses an unknown type.
- Resampler.CellOf: in the source's row a chosen `string` sample whose text is empty is the same `""` as a grid time with no sample. The model keeps the two apart, as `Blank` and `Val(Str(""))`, and does not model the written CSV text in which they coincide.
- Resampler.PickNearest: assumes that the samples of each channel are in time order. The two scans of the source rely on this, and `Resampler.PickNeedsOrder` shows an empty cell for a channel whose samples are out of order. Neither the source nor the model checks the order of the timestamps it decodes.
- `hoot_processor.py`, `parse-filter.py`, `parser.py` and `main.py` are not part of this model.

## Findings

| source | as written | input that shows it | evidently intended | confidence | as-written member | corrected member |
|---|---|---|---|---|---|---|
| wpilog_processor.py:189-194 | the grid loop runs `while current_time <= end_time`, adding `period_ms / 1000` each pass, and `period_ms` is never checked | `period_ms = 0` (or any negative period) with at least one entry: `current_time` never passes `end_time` | a positive period, so the grid is finite | not executed | Resampler.GridLoopNeverEnds | Resampler.BuildGrid |
