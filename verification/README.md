# A verified model of the hffix FIX codec

hffix is a C++ library that writes and reads FIX messages in place, over one byte buffer and
without allocation. This project models its wire codec in Dafny and proves that the fast code
means what a simple reference says.

The model has the parts of the library, one module each:

- **Codecs.** `IntegerCodec`, `DecimalCodec`, `Swar`, `CivilCalendar`, `Timestamps` (over `Bytes` and
  `Digits`): integers and decimals of any width, digit-parallel parsing in 32- and 64-bit words with
  masks, multiplications and wrap-around, the civil-day algorithms, and timestamps. References: the
  value of a digit string, and a day count that sums Gregorian year and month lengths.
- **Writer.** `MessageModel` states what one call does as a state machine over (bytes written, capacity,
  BodyLength slot, error flag). `MessageWriter` is the class that does it over an array, with a cursor,
  a slot patched afterwards and a sticky error; each method refines one step.
- **Frame recogniser.** `Frames`: the verdict incomplete / invalid / valid, proved equal to a grammar
  of frames in both directions, the class `MessageReader` that computes it, and the resync scan.
- **Batch loops.** `Batch`: the callback form, the range form, and the loop that feeds an unconsumed
  tail again in front of the next chunk.
- **Field iterator.** `FieldIterator`: one increment on any accepted bytes, data-length fields hidden;
  `FieldBytes` says byte by byte what an increment makes of a field, well-formed or not.
- **Round trip.** `RoundTrip`, `GroupRoundTrip` and `StreamRoundTrip`: what the writer wrote, the reader
  reads: fields, typed values, repeating groups, and whole streams with garbage between. `WireSamples`
  has messages and fields written out byte by byte.
- **Views.** `FieldStream` (search with a hint), `FieldIndex` (the packed index), `Groups` (repeating
  groups), `LengthTags` (bitmap and binary search).
- **Generator.** `GenFields`, `GenGroups` and `GenDocuments` (over `KeyOrder`): the merge and resolve
  logic of fixspec-gen-fields, up to the length-tag table the reader consults.

Buffers are byte sequences where the library only reads them, and arrays where it writes. A position
in a buffer is an offset. `size_t` is 64 bits, `int` 32 bits; where the library relies on wrap-around,
it is written out. The two exponent counters of the decimal codec wrap as well; for `int` and wider
types C++ leaves that overflow undefined, and the writer's results do not rest on it. Whether `char` is
signed, and which tags are length tags, are parameters (`Config`), so the results hold for both and for
every list; `GenFields.IsTagADataLength` shows which list the generator and `LengthTags` supply.

## Where the library and its documentation differ

- Page 17 of FIX 4.2 with Errata 20010501, quoted at include/hffix.hpp:1773, asks for well-formed
  first fields and a CheckSum field. `init` does not look at the leading `8=`, at the `=` behind 9 and
  35, or at the `10=` of the trailer: `Frames.UnreadBytes` lists what is not looked at, and
  `Frames.AcceptedAnyway` is a frame that is valid all the same.
- `init` looks at two bytes of MsgType, so a first tag of 350 to 359 passes for it as well
  (`RoundTrip.FirstTagDecides`), and its scan for the end of BeginString starts at the tenth byte, so
  a BeginString of at most one byte can be passed over (`RoundTrip.LengthInTheBody`).
- `Batch.ChunkingExact` is an if-and-only-if because the plain statement is false: behind garbage that
  runs to the end of a chunk the last ten bytes are kept, and they may turn out to be no frame start
  (`Batch.UnsafeCut`). For streams of valid frames it always holds (`Batch.StreamFeed`).
- README.md:603-604 says that trailing non-group fields do not leak into the last entry. An entry runs to
  the next delimiter or to the end of the range (include/hffix.hpp:2205-2211), so they do when the entry
  of the last delimiter is delivered: `GroupRoundTrip.LeakingView` is such a message, and
  `Groups.NothingLeaks` says exactly when nothing leaks.
- The comments on `try_as_int` and `try_as_decimal` (include/hffix.hpp:1225-1300) say that overflow is not
  detected; `try_atoi`, `try_atou` and the mantissa of `try_atod` do detect it.
- A timestamp of a year after 9999 is written with the last four digits of its year, so it can be read
  as another date (`Timestamps.YearCutOff`); `Timestamps.EpochMillisReadBack` says as what, and
  `Timestamps.EpochMillisRoundTrip` gives the exact range without loss.
- utils/fixspec-gen-fields/fixspec-gen-fields.cpp:229 calls what `resolve_first_field` returns a leaf field
  name. A component without a field, group or component in it ends the walk too, and the group is
  registered with the component's name: `GenGroups.ComponentAsDelimiter` is such a document, and
  `GenGroups.ComponentDelimiters` says exactly when it happens.
- A positive decimal exponent is not written at all; `DecimalCodec.DecimalRoundTrip` is an if-and-only-if.
- `dtoa_unchecked` counts the exponent up in its own type, once per digit. If that count passes the
  greatest value, the text is far longer than the space `push_back_decimal` checked for
  (`DecimalCodec.OverflowingCount`); `DecimalCodec.InReserve` is the exact condition for it to fit, and
  the writer's runs are over the pushes that meet it.

## Model

| member | source | states |
|---|---|---|
| `IntegerCodec.TryAtoi` | include/hffix.hpp:238-266 | succeeds exactly on `-?[0-9]+` whose value the type can hold, and gives that value; for every signed width, the minimum included |
| `IntegerCodec.TryAtou` | include/hffix.hpp:268-287 | succeeds exactly on `[0-9]+` whose value the type can hold, and gives that value; no sign is accepted |
| `IntegerCodec.AccumulateDigits` | include/hffix.hpp:252-263 | refusing the first digit that would pass the limit refuses exactly the strings whose whole value passes it |
| `IntegerCodec.NegatedWord` | include/hffix.hpp:264 | the wrapped negation of an unsigned word, read back as signed, is the negative number, down to the minimum |
| `IntegerCodec.ItoaUnchecked` | include/hffix.hpp:353-367 | writes the decimal text of any value, the minimum included, at the cursor and touches no other byte of the buffer |
| `IntegerCodec.WriteDigits` | include/hffix.hpp:343-351 | the least-significant-first loop leaves the reversed decimal text |
| `IntegerCodec.ReverseInPlace` | include/hffix.hpp:349 | `std::reverse` on a range reverses it and leaves the rest of the buffer alone |
| `IntegerCodec.IntegerRoundTrip` | include/hffix.hpp:238-367 | parsing the text written for a value of any type gives back that value |
| `IntegerCodec.IntegerLength` | include/hffix.hpp:338-340 | the text takes at most `max_ascii_chars` bytes |
| `IntegerCodec.IntegerGrammar` | include/hffix.hpp:238-287 | a parser answers n exactly if n is in the range of the type and the bytes are a sign where the type has one and then digits, byte by byte, worth n |
| `IntegerCodec.Widths` | include/hffix.hpp:238-287 | the ranges of the 32-bit, 64-bit and unsigned 64-bit types, as numbers |
| `DecimalCodec.TryAtod` | include/hffix.hpp:289-336 | succeeds exactly on an optional sign, digits and at most one point with a representable mantissa; gives the digits without the point and minus the number of digits behind it |
| `DecimalCodec.DecimalGrammar` | include/hffix.hpp:289-336 | the parser answers mantissa and exponent exactly if the bytes fall into a sign or none, digits, a point or none, and digits, with at least one digit; the mantissa is what the digits are worth together, and must fit |
| `DecimalCodec.DtoaUnchecked` | include/hffix.hpp:369-385 | writes the text of mantissa and exponent in place and touches nothing else, also where the count of the exponent passes the greatest value of the type |
| `DecimalCodec.EmittedForm` | include/hffix.hpp:369-385 | while the exponent counted up in its type stays in the type, the loop emits whole part, point, and exactly as many zero-padded digits as the negated exponent |
| `DecimalCodec.EmittedPastMax` | include/hffix.hpp:369-385 | once the count passes the greatest value the loop goes on from the least: the text is that of the exponent less the size of the type |
| `DecimalCodec.DecimalRoundTrip` | include/hffix.hpp:289-385 | written and read back, mantissa and exponent are the same if and only if the exponent is not positive or its count overflows; any other positive exponent is dropped |
| `DecimalCodec.DecimalLength` | include/hffix.hpp:769-783 | the text fits the space `push_back_decimal` reserves if and only if the exponent is not below -digits10 (one less for a mantissa without a sign) and its count stays in the type |
| `DecimalCodec.OverflowingCount` | include/hffix.hpp:377-381 | an eight-bit exponent of 126 for a two-digit mantissa: 132 bytes where 5 are reserved |
| `Swar.ParseTwo` | include/hffix.hpp:159-161 | on two digits the unsigned word arithmetic gives their decimal value, whether `char` is signed or not |
| `Swar.ParseFour` | include/hffix.hpp:163-169 | load, subtract, mask, multiply and shift on a 32-bit word give the decimal value of four digits |
| `Swar.ParseEight` | include/hffix.hpp:171-179 | three mask-multiply-shift rounds on a 64-bit word give the decimal value of eight digits |
| `Swar.AndParts` | include/hffix.hpp:163-179 | masking a word works on its low and high parts separately |
| `CivilCalendar.CivilFormulaCounts` | include/hffix.hpp:474-481 | the era/year-of-era/day-of-year formula equals the day count that sums Gregorian year and month lengths |
| `CivilCalendar.WordsSuffice` | include/hffix.hpp:530-546 | the inverse formula, with era, product, day of era and year in 32-bit words, gives the date of the unbounded formula if and only if the day is not after the last day of year 2147483647 |
| `CivilCalendar.CivilFromDaysCorrect` | include/hffix.hpp:530-546 | for every day from 1970-01-01 to the last day whose year fits an `int`, the inverse formula gives a real calendar date whose day count is that day |
| `CivilCalendar.CivilRoundTrip` | include/hffix.hpp:474-546 | the two directions are inverse: every real date from 1970 on whose year is an `int` comes back from its own day count |
| `CivilCalendar.DayNumberMonotone` | include/hffix.hpp:474-481 | later dates have strictly larger day counts |
| `CivilCalendar.CivilFromDaysMonotone` | include/hffix.hpp:530-546 | later days give strictly later dates |
| `Timestamps.SplitTicksCorrect` | include/hffix.hpp:520-598 | splitting an epoch count gives a real date and clock time that count back to it, in any tick size, while the year fits an `int` |
| `Timestamps.RangeByYear` | include/hffix.hpp:456-458 | an epoch count lies below the end of the supported range exactly when its year is at most 2200 |
| `Timestamps.EpochMillisRoundTrip` | include/hffix.hpp:1014-1019 | milliseconds written as padded digits and read by the digit-parallel parsers come back unchanged if and only if they lie before the end of year 2200, for every non-negative 64-bit count |
| `Timestamps.EpochNanosRoundTrip` | include/hffix.hpp:1021-1026 | the same for nanoseconds, for every non-negative 64-bit count |
| `Timestamps.EpochMillisReadBack` | include/hffix.hpp:1014-1019 | what any non-negative 64-bit count of milliseconds reads back as: itself less the ten thousands of years cut off, or nothing when the four digits left are no supported year |
| `Timestamps.YearCutOff` | include/hffix.hpp:938-974 | the first millisecond of year 11970 reads back as that of 1970 |
| `Timestamps.EpochSample` | include/hffix.hpp:520-564 | 1705321845123 milliseconds are 2024-01-15 12:30:45.123 |
| `Timestamps.EndInSeconds` | include/hffix.hpp:456-458 | the supported range ends 7289654400 seconds after the epoch |
| `Timestamps.MicrosTextRead` | include/hffix.hpp:435-439 | six fraction digits are read as that many thousands of nanoseconds |
| `Timestamps.MillisAsNanosRead` | include/hffix.hpp:430-434 | three fraction digits are read by the nanosecond parser as that many millions |
| `Timestamps.TimeLengths` | include/hffix.hpp:404-450 | which lengths of a time the two parsers accept: 8 and 12 bytes; 12, 15 and 18 bytes |
| `Timestamps.MicrosSample` | include/hffix.hpp:420-450 | `20240115-12:30:45.123456` has 123456000 nanoseconds |
| `Timestamps.StampPartsRead` | include/hffix.hpp:1364-1380 | date and time whose parts fit their digits, second 60 and years before 1970 included, are read back part by part: by the millisecond parser from no or three fraction digits, by the nanosecond parser from three, six or nine, scaled to nanoseconds |
| `Timestamps.EpochOfParts` | include/hffix.hpp:461-518 | the epoch count read is days by the calendar times 86400, hours times 3600, minutes times 60 and seconds, in milli- or nanoseconds; exactly if the year is 1970 to 2200, the month 1 to 12 and the day 1 to 31 |
| `Timestamps.MonthYearRead` | include/hffix.hpp:1332-1340 | a year below 10000 and a month come back from `YYYYMM` |
| `Timestamps.NanosNeverOverflow` | include/hffix.hpp:490-518 | for every byte string the nanosecond parser accepts, digits or not, each intermediate and the final count stay inside int64 |
| `MessageWriter.ItoaPaddedUnchecked` | include/hffix.hpp:387-392 | writes the low decimal places of a number at a fixed width, last digit first, and nothing else |
| `MessageModel.ChecksumBytes` | include/hffix.hpp:144-149 | is the sum of the bytes modulo 256; the writer and the reader share it |
| `MessageModel.ChecksumParts` | include/hffix.hpp:144-149 | the checksum of nothing is 0, of one byte that byte, and of two stretches the sum of theirs modulo 256 |
| `MessageWriter.MessageWriter.constructor` | include/hffix.hpp:610-611 | starts with nothing written, no BodyLength slot and no error |
| `MessageWriter.MessageWriter.PushField` | include/hffix.hpp:712-1026 | every field but data: one whole `tag=value<SOH>` is appended, or, exactly when the space it insists on is not there, the error flag is set and cursor and bytes stay; bytes behind the cursor are untouched |
| `MessageWriter.MessageWriter.PushData` | include/hffix.hpp:1028-1052 | refines the data step: length field and raw bytes together, or an error; a negative length is an error |
| `MessageWriter.MessageWriter.PushHeader` | include/hffix.hpp:677-700 | refines the header step: BeginString, `9=`, six skipped bytes, SOH, and the slot remembered; a second header is an error |
| `MessageWriter.MessageWriter.PushTrailer` | include/hffix.hpp:642-675 | refines the trailer step and returns the negation of the error flag |
| `MessageWriter.MessageWriter.PatchBodyLength` | include/hffix.hpp:655 | changes exactly the six digits of the slot |
| `MessageWriter.TryWriteMessage` | include/hffix.hpp:1066-1075 | answers an end exactly when the whole run of calls and the trailer succeed, and the buffer up to it is what the state machine wrote |
| `MessageModel.NeedCovers` | include/hffix.hpp:712-1052 | no push writes more than the space it checked for |
| `MessageModel.WhenCallsFail` | include/hffix.hpp:641-1060 | for each kind of call the exact number of free bytes below which it fails, and the other reasons to fail |
| `MessageModel.FailedTrailer` | include/hffix.hpp:642-675 | a trailer that fails before the patch changes nothing but the flag; one that finds no room has already written the six digits, and writes nothing else |
| `MessageModel.ApplyKeepsInv` | include/hffix.hpp:641-1060 | every call keeps the cursor inside the buffer and the slot inside the written bytes, and changes earlier bytes only inside the slot |
| `MessageModel.OnlyTrailerPatches` | include/hffix.hpp:641-1060 | no call other than the trailer changes an earlier byte; a call that fails changes nothing but the flag |
| `MessageModel.EveryRun` | include/hffix.hpp:641-1060 | over every run of calls in any order on any buffer size: the invariant holds, nothing changes after an error, earlier bytes change only in the six digits and only by a trailer |
| `MessageModel.MessageRun` | include/hffix.hpp:642-700 | when the trailer of a header-first run succeeds, the six digits are the count of bytes between their SOH and `10=`, and CheckSum is that of all preceding bytes |
| `MessageModel.MessageSucceeds` | include/hffix.hpp:642-700 | a message is written if and only if there is room for the header, each field finds the space it insists on at its own cursor, the body has at most 999999 bytes, and the trailer fits |
| `Frames.MessageReader.constructor` | include/hffix.hpp:1695-1703 | a new reader holds the verdict on its buffer |
| `Frames.MessageReader.Init` | include/hffix.hpp:1982-2096 | computes the three-way verdict and the geometry of the frame for every buffer |
| `Frames.MessageReader.ScanLength` | include/hffix.hpp:2020-2035 | the digit loop finds the end of BodyLength and accumulates it modulo 2^64 |
| `Frames.MessageReader.InitBody` | include/hffix.hpp:2036-2096 | the tests from MsgType to the final SOH, in order, with their incomplete and invalid exits |
| `Frames.PartsRecognised` | include/hffix.hpp:1982-2096 | every buffer that consists of BeginString part, `9?`digits, a body starting `35` and ending in SOH of that length, seven trailer bytes ending in SOH, and anything behind, is recognised at exactly those places |
| `Frames.RecognisedParts` | include/hffix.hpp:1982-2096 | conversely every buffer recognised as valid has these parts; together: valid means exactly this grammar |
| `Frames.VerdictExactly` | include/hffix.hpp:1982-2096 | incomplete if and only if the buffer ends before the byte that would decide, invalid if and only if a byte that is looked at is wrong: no SOH at offsets 9 to 12, no 9, no digit in BodyLength, no 35, no SOH at the end of the body or of the trailer; each with its place |
| `Frames.WrappedBodyLength` | include/hffix.hpp:2020-2035 | a BodyLength of 2^64 + 5 is taken for 5, and the frame is valid |
| `Frames.UnreadBytes` | include/hffix.hpp:1982-2096 | the verdict on a valid frame is the same whatever stands in its first nine bytes, behind the 9 and the 35, and in the first six bytes of the trailer |
| `Frames.AcceptedAnyway` | include/hffix.hpp:1982-2096 | a frame without `8=`, without the two `=` and without `10=` is valid |
| `Frames.VerdictStable` | include/hffix.hpp:1982-2110 | a verdict once reached stays the same, geometry included, however the buffer is extended |
| `Frames.PrefixVerdict` | include/hffix.hpp:1982-2110 | a prefix of a buffer is incomplete or gets the verdict of the buffer |
| `Frames.FrameIsMinimal` | include/hffix.hpp:1982-2096 | a frame cut to its own size is still recognised; cut shorter it is incomplete |
| `Frames.VerdictNeedsEleven` | include/hffix.hpp:1986-2018 | ten bytes or fewer are incomplete; an invalid verdict takes at least eleven |
| `Frames.ElevenSuffice` | include/hffix.hpp:2009-2018 | eleven bytes can be enough for an invalid verdict |
| `Frames.ResyncFrom` | include/hffix.hpp:1798-1812 | the scan stops at the first `8=FIX` at or after its start, or ten bytes before the end |
| `Frames.FixStart` | include/hffix.hpp:1803 | what the scan looks for, byte by byte: 0x38 0x3D 0x46 0x49 0x58 |
| `Frames.NextOffsetAdvances` | include/hffix.hpp:1792-1813 | every step of the reader goes forward by at least one byte and stays in the buffer |
| `Frames.MessageReader.NextMessageReader` | include/hffix.hpp:1792-1813 | the next reader starts at the end of a valid frame or at the resync position of an invalid one |
| `Frames.MessageReader.CalculateCheckSum` | include/hffix.hpp:1827-1830 | is the FIX checksum of all bytes before the CheckSum field |
| `Batch.ForEachMessage` | include/hffix.hpp:2768-2779 | delivers the messages and returns the tail of one pass |
| `Batch.RangeIterator.Increment` | include/hffix.hpp:2679-2683 | moves to the next frame that is not invalid |
| `Batch.CollectRange` | include/hffix.hpp:2654-2723 | the range form visits the same messages and leaves the same remainder as the callback form |
| `Batch.RunConserves` | include/hffix.hpp:2768-2779 | messages, skipped stretches and tail account for every byte of the buffer, in order; each message is a whole valid frame |
| `Batch.AccountIsUnique` | include/hffix.hpp:2768-2779 | there is no other such account of the buffer |
| `Batch.SkippedForGood` | include/hffix.hpp:1798-1812 | no byte still to come can turn a skipped position into the start of `8=FIX` |
| `Batch.TailIncomplete` | include/hffix.hpp:2768-2779 | the returned tail starts an incomplete frame |
| `Batch.ChunkingExact` | include/hffix.hpp:2768-2779 | cutting a buffer and feeding the tail again gives the same messages and tail as one pass if and only if the cut is safe: no resync of the first pass ran off its end, or nothing follows, or the kept ten bytes start `8=FIX` or, with what follows, an invalid frame |
| `Batch.UnsafeCut` | include/hffix.hpp:1798-1812 | a concrete cut for which the two differ |
| `Batch.FeedChunks` | utils/fixprint/fixprint.cpp:47-108 | the read loop through a buffer of fixed size computes the feed of what it reads, and ends only at the end of the input or when the tail fills the buffer |
| `Batch.LoopDelivers` | utils/fixprint/fixprint.cpp:47-108 | over a stream of valid frames the loop delivers exactly its frames if and only if none is longer than the buffer |
| `Batch.FeedIsOnePass` | utils/fixprint/fixprint.cpp:47-108 | any number of safe cuts at any places change nothing |
| `Batch.StreamPass` | include/hffix.hpp:2768-2779 | a pass over a stretch of a stream of valid frames delivers exactly the frames that end in it |
| `Batch.StreamFeed` | utils/fixprint/fixprint.cpp:47-108 | a stream of valid frames cut into any chunks delivers exactly its frames and leaves no tail |
| `Batch.Recovers` | include/hffix.hpp:1798-1812 | garbage that makes an invalid frame, with no `8=FIX` inside, is skipped, and every frame of the stream behind it is delivered |
| `Batch.RecoversWithin` | include/hffix.hpp:1798-1812 | the same in the middle of a stream |
| `StreamRoundTrip.WrittenOpens` | include/hffix.hpp:677-700 | a written message opens with the bytes 0x38 0x3D and its BeginString |
| `StreamRoundTrip.SentAroundGarbage` | include/hffix.hpp:1795-1813 | written messages in front of and behind garbage: if what starts at the garbage is invalid and no `8=FIX` starts within it, all of them are delivered, as they were written |
| `StreamRoundTrip.SentInChunks` | utils/fixprint/fixprint.cpp:47-108 | a stream of written messages, cut into any chunks, is delivered as it was written |
| `WireSamples.SampleMessage` | include/hffix.hpp:642-700 | header, MsgType `0` and trailer leave `8=FIX.4.2|9=000005|35=0|10=145|`, byte for byte |
| `WireSamples.PlainSamples` | include/hffix.hpp:712-1052 | a text, a character, a negative integer and a data field, byte for byte |
| `WireSamples.DecimalSample` | include/hffix.hpp:769-783 | -12345 with exponent -2 is written `44=-123.45|`, byte for byte |
| `WireSamples.DateSamples` | include/hffix.hpp:785-819 | a date and a month-year field, byte for byte |
| `WireSamples.TimeSamples` | include/hffix.hpp:821-968 | a time and a timestamp field, byte for byte |
| `WireSamples.SampleRead` | include/hffix.hpp:1820-2096 | `8=FIX.4.2|9=5|35=0|10=161|` is a valid frame, and its checksum is 161 |
| `WireSamples.GarbageSkipped` | include/hffix.hpp:1795-1813 | `garbage_bytes_not_a_fix_frame` in front of that message: the message is delivered, and no tail is left |
| `FieldIterator.NextAdvances` | include/hffix.hpp:2322-2386 | each increment lands on the CheckSum or moves strictly forward, and every range it yields lies inside the message, whatever the bytes |
| `FieldIterator.WalkOrdered` | include/hffix.hpp:2322-2386 | the fields from any cursor on are ordered, disjoint and inside the message |
| `FieldIterator.WalkReachesEnd` | include/hffix.hpp:2322-2386 | as many increments as there are fields lead to the CheckSum, and the fields are the ones passed on the way |
| `FieldIterator.IterationTerminates` | include/hffix.hpp:2322-2386 | on every accepted frame `end()` is reached after at most message-size increments; the fields are ordered and disjoint |
| `FieldIterator.FieldIterator.Increment` | include/hffix.hpp:2322-2386 | computes the next cursor, reading only inside the message |
| `FieldIterator.FieldIterator.IncrementOverLength` | include/hffix.hpp:2356-2381 | behind a length field: the data field of that length, or the CheckSum when the length or the tag is malformed |
| `FieldBytes.EmptyFieldNext` | include/hffix.hpp:2335-2350 | digits and then an SOH are a field of that tag with an empty value |
| `FieldBytes.BehindEmptyField` | include/hffix.hpp:2331-2350 | the iteration goes on behind such a field: the field behind it is the next but one |
| `FieldBytes.PlainFieldNext` | include/hffix.hpp:2335-2386 | digits, `=`, bytes up to an SOH: that field, if the tag is no length tag |
| `FieldBytes.DataFieldNext` | include/hffix.hpp:2356-2381 | behind a length field the data field has exactly the length said; if more is said than there is, the CheckSum |
| `FieldBytes.LengthWithoutData` | include/hffix.hpp:2356-2370 | behind a length field without another `=`: the CheckSum |
| `FieldBytes.NothingNext` | include/hffix.hpp:2324-2343 | nothing left: the CheckSum |
| `RoundTrip.NextPushed` | include/hffix.hpp:2322-2386 | a pushed field in front of the cursor is the next field read; a length field and its data read as the one data field |
| `RoundTrip.WriteThenRead` | include/hffix.hpp:641-1060 | a successful header-first run with MsgType first leaves a complete frame that is valid exactly when BeginString has 7 to 10 bytes; then it ends where the writer ended and iterates exactly the pushed tags and values, length fields hidden |
| `RoundTrip.FirstTagDecides` | include/hffix.hpp:641-1060 | any successful header-first run leaves a complete message, valid if and only if BeginString has 7 to 10 bytes and the digits of the first tag start with 35 (a BeginString of at most one byte before a tag that starts with 9 aside) |
| `RoundTrip.LengthInTheBody` | include/hffix.hpp:1986-2018 | without a BeginString, a first field with tag 9 is taken for BodyLength and the message is valid |
| `RoundTrip.ValueParses` | include/hffix.hpp:712-1052 | for every kind of field the reader's parser makes of the value bytes what was pushed: integers, decimals, and dates, month-years, times and timestamps whose parts fit their digits |
| `RoundTrip.TypedWriteThenRead` | include/hffix.hpp:641-1060 | in a written message the fields read back carry the pushed tags, and their values parse to what was pushed |
| `RoundTrip.EpochsRead` | include/hffix.hpp:1014-1026 | the value of a pushed epoch count parses to that count if and only if it lies before the end of year 2200 |
| `RoundTrip.ChecksumAgrees` | include/hffix.hpp:1820-1830 | the checksum the reader calculates over a written message is the one its trailer states |
| `FieldStream.FieldsAreChain` | include/hffix.hpp:2322-2386 | the fields of a frame are linked by increments, end to end |
| `FieldStream.SearchFromBegin` | include/hffix.hpp:1636-1652 | a search from the beginning finds the first occurrence |
| `FieldStream.SearchNearest` | include/hffix.hpp:1636-1652 | a search finds field k exactly if k has the tag and is the first such at or behind the hint or, only if there is none, the first in front of it |
| `FieldStream.FindWithHint` | include/hffix.hpp:1636-1652 | finds the first occurrence at or after the hint, else the first before it; on a miss the hint stays |
| `FieldIndex.PackLossless` | include/hffix.hpp:2586-2597 | position and length survive packing exactly while both fit 32 bits |
| `FieldIndex.FindTagInIndex` | include/hffix.hpp:136-142 | the first slot with the tag, or the end |
| `FieldIndex.FindIndexed` | include/hffix.hpp:2533-2549 | the indexed search from a hint with wrap-around |
| `FieldIndex.BuildMessageIndex` | include/hffix.hpp:2571-2601 | the index of a frame: the first fields up to the capacity, the truncation and overflow flags |
| `FieldIndex.BuildEntryIndex` | include/hffix.hpp:2604-2634 | the index of a group entry, positions counted from its first byte |
| `FieldIndex.IndexHolds` | include/hffix.hpp:2571-2601 | an index holds tags and value ranges of the first fields, as many as there are slots; it is truncated if and only if there are more, and holds nothing for a frame of 2^32 bytes or more or for no valid frame |
| `FieldIndex.LookupIsSearch` | include/hffix.hpp:2533-2549 | at any capacity the lookup is the scan over the fields the index holds |
| `FieldIndex.IndexRefinesScan` | include/hffix.hpp:2533-2601 | with an authoritative index, every sequence of searches with a carried hint gives the fields, values and hints of the same sequence on the iterator |
| `FieldIndex.AuthoritativeWhen` | include/hffix.hpp:2579-2601 | the index of a valid frame is authoritative, so that the above applies, exactly when the frame fits 32-bit positions and every field found a slot |
| `FieldIndex.EntryIndexRefinesScan` | include/hffix.hpp:2604-2634 | the same for a group entry, with the exact condition for its index to be authoritative |
| `Groups.ViewShape` | include/hffix.hpp:2154-2250 | a view yields the smaller of declared count and number of delimiters; each entry starts with the delimiter and has no other; together they are one stretch of the field stream from the first delimiter |
| `Groups.NothingLeaks` | include/hffix.hpp:2154-2250 | with no delimiter from some field on, all entries end there or before if and only if nothing follows, or there is no entry, or there are more delimiters than the declared count |
| `Groups.GroupIterator.Increment` | include/hffix.hpp:2165-2176 | moves to the entry at the next delimiter, or past the last |
| `Groups.CollectEntries` | include/hffix.hpp:2154-2250 | a loop over the view visits exactly the entries of the reference |
| `Groups.HandScan` | benchmarks/benchmarks.cpp:848-878 | the hand-written scan cuts the same entries |
| `Groups.Group` | include/hffix.hpp:2265-2289 | finds the count field and opens the view behind it; a missing field or a count that is no unsigned integer gives the empty view |
| `Groups.InnerGroupConfined` | include/hffix.hpp:2278-2289 | a group looked up in an entry has all its entries inside that entry |
| `GroupRoundTrip.GroupWriteThenRead` | include/hffix.hpp:2154-2289 | a count field, that many entries that each start with the delimiter, and other fields, written and read: the view is exactly those entries, field by field, the last one extended to the end of the message |
| `GroupRoundTrip.PushedCount` | include/hffix.hpp:2270-2273 | a count pushed as an integer reads as that count |
| `GroupRoundTrip.LeakingView` | include/hffix.hpp:2205-2211 | a written message whose one declared entry takes in the field behind the group |
| `LengthTags.LengthTagIndex.constructor` | include/hffix.hpp:2398-2412 | the bitmap and the sorted rest hold exactly the tags of the list |
| `LengthTags.LengthTagIndex.SetTag` | include/hffix.hpp:2406-2409 | setting a bit adds that tag to the bitmap and no other |
| `LengthTags.SetBit` | include/hffix.hpp:2408 | or-ing in one bit of a word changes that bit and no other |
| `LengthTags.LengthTagIndex.Contains` | include/hffix.hpp:2414-2419 | answers true exactly for the tags of the list, for any int |
| `LengthTags.BinarySearch` | include/hffix.hpp:2418 | finds exactly the members of a sorted list |
| `GenFields.LengthSpellings` | utils/fixspec-gen-fields/fixspec-gen-fields.cpp:55-93 | only `LENGTH` and `Length` normalise to `Length` |
| `GenFields.Spellings1` | utils/fixspec-gen-fields/fixspec-gen-fields.cpp:57-64 | the spellings of INT to PRICE |
| `GenFields.Spellings2` | utils/fixspec-gen-fields/fixspec-gen-fields.cpp:65-72 | the spellings of PRICEOFFSET to MULTIPLESTRINGVALUE |
| `GenFields.Spellings3` | utils/fixspec-gen-fields/fixspec-gen-fields.cpp:73-80 | the spellings of COUNTRY to LOCALMKTDATE |
| `GenFields.Spellings4` | utils/fixspec-gen-fields/fixspec-gen-fields.cpp:81-88 | the spellings of LOCALMKTTIME to XIDREF |
| `GenFields.OtherTypesKept` | utils/fixspec-gen-fields/fixspec-gen-fields.cpp:90-93 | any text that is none of the 32 names is kept |
| `GenFields.FieldTable.LoadFields` | utils/fixspec-gen-fields/fixspec-gen-fields.cpp:95-123 | by tag: the first usable specification names and types the field; each other name becomes an alias once, in order |
| `GenFields.FieldMeaning` | utils/fixspec-gen-fields/fixspec-gen-fields.cpp:95-123 | a tag is in the table, under a name as its own or an alias, if and only if some specification gives it that name, a number above 0 and a type; each name is there once; name and type are those of the first such specification |
| `KeyOrder.DistinctOrder` | utils/fixspec-gen-fields/fixspec-gen-fields.cpp:110-116 | names that are kept once stand in the order of their first occurrence |
| `KeyOrder.StringLeqDecided` | utils/fixspec-gen-fields/fixspec-gen-fields.cpp:281 | the order of a table by name: the first differing character decides, a prefix comes first |
| `GenFields.FieldTable.LengthFields` | utils/fixspec-gen-fields/fixspec-gen-fields.cpp:332-386 | the generated list is strictly sorted and holds exactly the length tags |
| `GenFields.LengthTagOfField` | utils/fixspec-gen-fields/fixspec-gen-fields.cpp:332-340 | a merged field is a data-length field exactly when the first usable specification of its tag has type Length and the tag is neither 9 nor 383 |
| `GenFields.IsTagADataLength` | utils/fixspec-gen-fields/fixspec-gen-fields.cpp:95-386 | end to end from the documents to the reader's lookup: true for an integer exactly when it is such a tag |
| `GenGroups.FindFirstMember` | utils/fixspec-gen-fields/fixspec-gen-fields.cpp:185-191 | the name of the first field, component or group among the children |
| `GenGroups.ResolveComponentFirst` | utils/fixspec-gen-fields/fixspec-gen-fields.cpp:150-172 | a component refers to the first member of its first definition that has one |
| `GenGroups.GroupTable.CollectGroups` | utils/fixspec-gen-fields/fixspec-gen-fields.cpp:176-211 | records the groups of a tree, outer before inner; for each count name the first-seen delimiter and the alternates with their contexts |
| `GenGroups.GroupTable.CollectAllGroups` | utils/fixspec-gen-fields/fixspec-gen-fields.cpp:213-227 | the occurrences of a document in order: messages, components, header, trailer |
| `GenDocuments.GroupRecorded` | utils/fixspec-gen-fields/fixspec-gen-fields.cpp:176-227 | a group is recorded with delimiter and context if and only if some message, component, header or trailer of some document holds, at any depth, a group element of that name whose first field, group or component child has that name |
| `GenDocuments.GroupsCollected` | utils/fixspec-gen-fields/fixspec-gen-fields.cpp:176-227 | each group element with a name and a first member is recorded once, with the name of its root; a group before the groups inside it, earlier children first, and in each document messages, components, header, trailer |
| `GenDocuments.FirstOccurrence` | utils/fixspec-gen-fields/fixspec-gen-fields.cpp:193 | the first group of its name in that order is the one that is registered |
| `GenDocuments.ComponentRefers` | utils/fixspec-gen-fields/fixspec-gen-fields.cpp:150-172 | a component name refers to the first child of its first definition that has one, and is absent if no definition has |
| `GenDocuments.ComponentsAre` | utils/fixspec-gen-fields/fixspec-gen-fields.cpp:150-152 | the components considered are those of the documents |
| `GenDocuments.ComponentsInOrder` | utils/fixspec-gen-fields/fixspec-gen-fields.cpp:267-272 | they keep the order of the documents |
| `GenGroups.TallyCorrect` | utils/fixspec-gen-fields/fixspec-gen-fields.cpp:193-206 | one more occurrence keeps the alternates distinct, in order of appearance, each with its distinct contexts |
| `GenGroups.ResolveFirstField` | utils/fixspec-gen-fields/fixspec-gen-fields.cpp:230-265 | terminates on any component table and gives the leaf reached through at most 31 references, or nothing; the visited set only ends cycles early |
| `GenGroups.CycleHasNoLeaf` | utils/fixspec-gen-fields/fixspec-gen-fields.cpp:241-256 | coming back to a component means no leaf is ever reached |
| `GenGroups.LimitHarmless` | utils/fixspec-gen-fields/fixspec-gen-fields.cpp:233-264 | with at most 31 components a name stays unresolved exactly when its references never leave the components |
| `GenGroups.LimitBites` | utils/fixspec-gen-fields/fixspec-gen-fields.cpp:233-264 | with 32 the depth limit can lose a leaf: the bound 31 is exact |
| `GenGroups.ResolveDistinct` | utils/fixspec-gen-fields/fixspec-gen-fields.cpp:290-310 | resolving first and then removing repeats gives the same delimiters in the same order as removing repeats first |
| `GenGroups.CollapsedMeaning` | utils/fixspec-gen-fields/fixspec-gen-fields.cpp:290-311 | a collapsed entry lists every resolved delimiter once, in order, each with every named context it was seen in and no other |
| `GenGroups.LoadGroups` | utils/fixspec-gen-fields/fixspec-gen-fields.cpp:267-330 | the table of groups is sorted, holds exactly the groups whose first-seen delimiter resolves; the conflict table holds exactly those with two or more delimiters |
| `GenGroups.TablesSound` | utils/fixspec-gen-fields/fixspec-gen-fields.cpp:267-330 | every registered delimiter is a name that refers no further, reached from the first-seen child; it is the first alternate of its conflict entry; alternates are distinct and no context is lost |
| `GenGroups.ConflictWhen` | utils/fixspec-gen-fields/fixspec-gen-fields.cpp:290-329 | a registered group is in the conflict table exactly when two of its occurrences resolve to different delimiters; no other group is |
| `GenGroups.NoFurther` | utils/fixspec-gen-fields/fixspec-gen-fields.cpp:230-240 | no component of a registered delimiter's name has a field, group or component in any of its definitions |
| `GenGroups.ComponentDelimiters` | utils/fixspec-gen-fields/fixspec-gen-fields.cpp:150-172 | some registered delimiter names a component if and only if the walk of some group ends at a component without a member; none does if every named component has a definition with one |
| `GenGroups.ComponentAsDelimiter` | utils/fixspec-gen-fields/fixspec-gen-fields.cpp:230-240 | a document whose group is registered with the name of an empty component |
| `GenGroups.DroppedExactly` | utils/fixspec-gen-fields/fixspec-gen-fields.cpp:281-289 | with at most 31 components a group is left out exactly when its delimiter leads round components forever |

## Left out

- MessageModel.EveryRun: decimal pushes whose text does not fit the reserved space are not in the runs; `DecimalCodec.DecimalLength` says exactly which those are.
- Time points before 1970: outside what the date formulas handle.
- The value parsers without validation (`as_int_unchecked` and the like) on bytes that are no digits, and date parts out of range passed to the writer: trusted input.
- Overloads that only forward (spans, literals, `chrono` durations), comparison operators, `operator<<`, the field name streamer and the dictionaries.
- `HFFIX_ASSERT` and its handlers, prefetch and inlining hints: assertions are preconditions here.
- The body of `try_write_message` is a list of calls, not arbitrary code.
- Copies of readers and iterators are values; sharing one buffer between a writer and a reader is not modelled.
- FieldIndex.BuildMessageIndex: says nothing about an incomplete reader; `is_valid` is still true there and the library computes a size from a null pointer.
- Groups: the compile-time `group<CountTag>()` forms, which look a delimiter up in generated data and forward.
- GenFields.FieldTable.LengthFields: the list holds tags; the generated text names them through `tag::` constants, which is the same list while field names are unique.
- The generator's XML loading, message types, text emission, command line and warnings: the model starts from parsed specifications and element trees.
- fixprint and fixgen input and output, benchmarks and the fuzz target.
