# Verified model of the zcc core

This project models the hardest parts of the zcc C++ library in Dafny and proves what they are for:

- **The constant database.** `Cdb*.dfy` follow `cpp_src/cdb`: hash chains of linked nodes that are relinked in place,
  a growable byte file that is written by seeking and back-patching offsets, the byte format, the reader's binary
  search and the resumable walker. `CdbScenario` puts them together: what is built, compiled, opened and looked up (or
  walked) is compared with a plain map. `CdbIndependence` says when the compiled bytes depend on that map alone,
  `CdbOrder` in what order the entries stand in them.
- **Recurring events.** `Civil.dfy` and `EventMatcher.dfy` follow `cpp_src/calendar/event_matcher.cpp`: civil dates,
  the rule predicate, the counting loops and the day-by-day search. `RuleMeaning.dfy` and `RuleDays.dfy` describe what
  the rules select a second time, `RuleSpan.dfy` how far a series goes, `RuleGaps.dfy` where that is not what RFC 5545
  asks for, and `UntilLimit.dfy` what becomes of their end dates. `RruleText.dfy` and `RruleForm.dfy` follow the
  parser and the printer of recurrence rules; `RuleNames.dfy` and `RuleTokens.dfy` hold them against the standard's
  own names and `RuleDefaults.dfy` against the matcher.
- **The iCalendar text layer.** `IcsText.dfy`, `ContentLine.dfy`, `BeginEnd.dfy` and `BeginEndTree.dfy`: escaping and
  folding, unfolding, the parser of one line, and the tree of BEGIN/END nodes with its parent links. `Escapes.dfy`,
  `FoldedText.dfy` and `Unfolding.dfy` say what escapes mean, where lines are cut, and what line ends are understood.
- **Asynchronous I/O.** `AioRead.dfy` and `AioSession.dfy`: requests that are suspended and resumed while bytes arrive
  in arbitrary pieces, and `AioItems.dfy` what a stream of items gives to the requests for them; every handle keeps a
  ghost record of what it does with its cache. `AioCache.dfy`: the blocks the bytes are stored in, and when they hold
  what such a record says. `AioQueue.dfy`: the doubly linked queues. `AioLoop.dfy`, `AioLoopSteps.dfy`,
  `AioLoopRuns.dfy` and `AioLoopFaults.dfy`: the event loop as a state machine, with other threads posting requests at any time.
- **Transfer encodings.** `Base64.dfy` and `QuotedPrintable.dfy`, held against their standards by `Base64Format.dfy`
  and `QuotedFormat.dfy`.

Code that works step by step is modelled by methods with loops, or by classes with the source's fields, each proved
equal to a function; the properties are then proved of these functions, for all inputs or all runs. `Bytes.dfy`,
`Bits.dfy`, `Ascii.dfy`, `Options.dfy`, `Sequences.dfy`, `TextLines.dfy` and `AioStage.dfy` hold what several of them
use.

## What is false of the code

Each of these is proved, with the exact condition under which the code does meet the property.

- `find` never finds the empty key: the builder puts it into bucket 5381 mod size, the reader looks into bucket 0
  (`CdbTheorems.EmptyKeyIsMissed`, `CdbTheorems.FindAgreesExactly`).
- A history that mixes empty and non-empty values may be compiled in fixed-length mode although its values differ in
  length, because the smallest length seen forgets 0 (`CdbTheorems.FixedModeExactly`,
  `CdbTheorems.MixedHistoryMisreads`).
- After such a history the compiled bytes may depend on what the buffers of the values held before, and so on the
  order of the updates: two histories with the same map and mode compile to the same bytes in every memory exactly
  when no value is read past its terminator (`CdbIndependence.HistoryIndependence`,
  `CdbIndependence.DetourCompilesDifferently`).
- The end date of a rule is compared, as a number of seconds, with a day written yyyymmdd. Where that lets a range
  through, the end date plays no part any more, so the answers are right exactly when no occurrence starts after it
  (`UntilLimit.SearchIgnoresUntil`, `UntilLimit.AcceptedRangesExactly`, `UntilLimit.NeverEnds`). An end date below the
  day of the start, written that way, makes the event match nowhere (`UntilLimit.SmallUntilRefusesAll`,
  `UntilLimit.RefusedTooEarly`). `UntilLimit.AllRangesExactly` has the condition over all ranges.
- A yearly rule with months but no days selects all days of these months where section 3.3.10 of RFC 5545 asks for the
  day of the start; the two agree exactly when the rule names no month from 1 to 12
  (`RuleMeaning.YearlyByMonthExactly`).
- An ordinal in front of a weekday is lost exactly when the token begins with a plus sign or a blank
  (`RruleForm.OrdinalKeptExactly`, `RruleForm.PlusIsLost`).
- The ordinal of a weekday in a yearly rule is taken within the month although the rule names no month, where section
  3.3.10 of RFC 5545 takes it within the year. In a year it applies to, a rule with one such weekday and nothing else
  selects what the standard asks for exactly when the ordinal is beyond the number of such weekdays in the year, so
  that this is nothing; from the sixth on it selects nothing itself (`RuleGaps.YearlyOrdinalExactly`).
- A yearly rule that names a day of the year and no month or day still asks for the month and the day of the start. In
  a year it applies to, it selects what the standard asks for exactly when the named day is that anniversary, or the
  year has no such day (`RuleGaps.YearDayExactly`).
- A series is followed over the first 3650 days only: all of a daily series is found exactly when it has a count and
  its last day is not later (`RuleSpan.HorizonExactly`).
- The positions of a rule (`bysetpos`) are parsed and printed, but matching never looks at them. A monthly rule with
  one n-th weekday selects only what the standard asks for exactly when it names no position, or the first or the last
  (`RuleGaps.SetPositionsExactly`).
- A line break written with a capital letter N behind the backslash, as section 3.3.11 of RFC 5545 allows, is read as
  the letter; every other text with the escapes of the standard is read as it is meant (`Escapes.UnescapeExactly`).
  What the printer writes is such a text exactly when the value has no carriage return (`Escapes.EscapedIsStandard`).
- Folded descriptions stay within the 75 octets of section 3.1 of RFC 5545 exactly when they need no fold at all
  (`FoldedText.FoldLimitExactly`).
- The caches, for reading and for writing alike, lose bytes as soon as a second block is started behind one that still
  holds more than its last byte: the start of the old block is moved instead of its end (`AioCache.AppendsExactly`,
  `AioCache.BlocksAreBytesExactly`, `AioCache.FullBlockThenOne`). A sender's pieces are held exactly when they are
  4096 bytes at most, lengths included, so a single piece of 4095 bytes is too long
  (`AioSession.SenderInBlocksExactly`). A receiver's blocks hold everything when no more than 4096 bytes come in
  between two times when its cache is empty (`AioCache.ShortBurstsInBlocks`, `AioSession.Session`,
  `AioSession.SendAndReceive`).
- A handle whose readable or writeable has called back stays registered. A client may ask it for a readable or
  writeable again at any time; any other request can get its one node linked twice when the handle is still registered
  and the request is made in a callback of the drain or of the timers, or with an event of the handle still to come in
  the round, or is for a length with data. These are all the cases (`AioLoopRuns.MayIssueExactly`,
  `AioLoopRuns.LateIssueFaultsExactly`, `AioLoopRuns.RegisteredCintFaultsExactly`). A handle that is disabled first is
  not registered any more. Callbacks of the timers and of the events are reached with the handle still registered
  (`AioLoopRuns.LateIssueReached`, `AioLoopRuns.EventCallbackReached`).
- Quoted-printable lines stay within the 76 characters of section 6.7 of RFC 2045 exactly when no line needs a soft
  break at all (`QuotedPrintable.WithinLimitExactly`); they reach 80 (`QuotedPrintable.EightyReached`).

## Model

| member | source | states |
|---|---|---|
| Bytes.UnpackPack | include/zcc/zcc_intpack.h:20-43 | unpacking four packed bytes gives the number modulo 2^32 |
| Bytes.UnpackBigEndian | include/zcc/zcc_intpack.h:20-43 | unpacking gives the number that the bytes write, the first byte counting most |
| Bytes.MemcmpAntisymmetric | cpp_src/cdb/builder.cpp:106-116 | the key order of chains: exchanging the arguments exchanges less and greater |
| Bytes.MemcmpTransitive | cpp_src/cdb/builder.cpp:106-116 | the key order of chains is transitive |
| Bytes.MemcmpMeaning | cpp_src/cdb/builder.cpp:106-116 | equally long keys are ordered by their first different byte |
| Bytes.MemcmpBigEndian | cpp_src/cdb/builder.cpp:106-116 | equally long keys are ordered as the numbers they write, most significant byte first |
| Bytes.ComputeHashDjb | include/zcc/zcc_stdlib.h:1679-1689 | the loop computes the shift-add hash of the key in 32 bits |
| Bytes.HashMeaning | include/zcc/zcc_stdlib.h:1679-1689 | from 5381 on, each further byte multiplies the hash by 33 in 32 bits and is exclusive-ored in |
| Bytes.EmptyKeyBucket | cpp_src/cdb/builder.cpp:102 | in a table of three buckets the empty key belongs to bucket 2 |
| Bytes.ConcatPatch | cpp_src/cdb/builder.cpp:428-430 | overwriting the tail of one record of a table of records in place changes that record and no other byte |
| CdbModel.GetChainComplete | cpp_src/cdb/reader.cpp:256-276 | in a sorted chain the search that stops at the first key not smaller finds every entry |
| CdbModel.GetChainIff | cpp_src/cdb/reader.cpp:256-276 | in a sorted chain the search finds a value exactly when the entry is there |
| CdbModel.InsertChainSorted | cpp_src/cdb/builder.cpp:100-138 | updating a chain keeps it strictly increasing |
| CdbModel.InsertChainMembers | cpp_src/cdb/builder.cpp:100-138 | after an update the chain holds the new entry, and the old ones with other keys |
| CdbModel.InsertPlaced | cpp_src/cdb/builder.cpp:100-138 | an update keeps every chain sorted and every key in its own bucket, and adds an entry exactly when the key is new |
| CdbModel.InsertGet | cpp_src/cdb/builder.cpp:100-138 | after an update the key has the new value and every other key its old one |
| CdbModel.InsertAllCount | cpp_src/cdb/builder.cpp:29-72 | moving distinct keys into a new vector never meets an equal key: none is lost |
| CdbModel.RehashPreserves | cpp_src/cdb/builder.cpp:29-72 | rehashing keeps the number of entries and every lookup |
| CdbModel.SizeForNext | cpp_src/cdb/builder.cpp:134-137 | the bucket count for one more key: unchanged while there is room, else twice plus one |
| CdbModel.UpdateRepresents | cpp_src/cdb/builder.cpp:100-138 | every update keeps: sorted chains, right buckets, the map with the key updated, a bucket count that depends on the number of keys only and is not below it |
| CdbTable.Locate | cpp_src/cdb/builder.cpp:103-117 | walking the pointers stops at the first node whose key is not smaller, with its predecessor |
| CdbTable.Splice | cpp_src/cdb/builder.cpp:124-133 | relinking puts the node between two neighbours of its chain and leaves the other buckets alone |
| CdbTable.UpdateVector | cpp_src/cdb/builder.cpp:102-133 | the linked nodes of a vector hold the updated entries, and a node is new exactly when the key is |
| CdbTable.MoveNode | cpp_src/cdb/builder.cpp:39-65 | relinking a node into the new vector inserts its entry there; the branch for an equal key is never taken |
| CdbTable.MoveAll | cpp_src/cdb/builder.cpp:33-67 | the rehash relinks all nodes, and no others, into the new vector |
| CdbTable.Table.constructor | cpp_src/cdb/builder.cpp:74-82 | a new table is empty with three buckets |
| CdbTable.Table.Update | cpp_src/cdb/builder.cpp:100-138 | the table's nodes hold the updated buckets, after a rehash where there are more keys than buckets |
| CdbTable.Table.ResetHashNodeSize | cpp_src/cdb/builder.cpp:29-72 | afterwards the nodes hold the rehashed buckets, and the table is valid again |
| CdbFile.DoublingStaysWithin | cpp_src/cdb/builder.cpp:190-197 | below 2^30 bytes one more doubling of the capacity stays in an int |
| CdbFile.File.Seek | cpp_src/cdb/builder.cpp:156-181 | the cursor is moved and clamped into the file; no byte changes |
| CdbFile.File.Grow | cpp_src/cdb/builder.cpp:189-202 | the buffer becomes large enough and keeps the file's bytes |
| CdbFile.File.Write | cpp_src/cdb/builder.cpp:183-211 | the buffer stands for an unbounded byte file that is overwritten at the cursor and grows past its end |
| CdbFormat.RegionAt | cpp_src/cdb/reader.cpp:9-38 | every region stands where its offset says and ends before the next one starts |
| CdbFormat.PatchRecord | cpp_src/cdb/builder.cpp:428-430 | back-patching the next offset fills in that slot and changes nothing else |
| CdbFormat.RecordsZero | cpp_src/cdb/builder.cpp:407-422 | a slot that is never patched reads as 0 |
| CdbFormat.VarintMeaning | cpp_src/cdb/builder.cpp:297-311 | a size is written in groups of seven bits, the least significant first, only the last byte with its high bit, without leading zero groups |
| CdbImage.TableEncodes | cpp_src/cdb/reader.cpp:9-38 | the region of a table, wherever it stands, encodes the table in the terms of the format |
| CdbImage.ImageEncodes | cpp_src/cdb/reader.cpp:9-38 | the laid-out image encodes its tables: magic, final size at byte 8, count, every offset pointing at what it names |
| CdbHistory.StepTracks | cpp_src/cdb/builder.cpp:251-295 | an update keeps the tables, the count and the longest key in agreement with the map |
| CdbHistory.RunTracks | cpp_src/cdb/builder.cpp:251-295 | after every history the builder's state agrees with the map the history leaves |
| CdbCompile.CintPut | cpp_src/cdb/builder.cpp:297-311 | the loop writes the seven-bit form of a size |
| CdbCompile.PatchSlot | cpp_src/cdb/builder.cpp:423-430 | seeking back, writing an offset and returning to the end fills one slot and nothing else |
| CdbCompile.WriteValues | cpp_src/cdb/builder.cpp:415-431 | values are appended with their lengths and every record's offset is patched |
| CdbCompile.WriteFixed | cpp_src/cdb/builder.cpp:433-446 | fixed-length values stand right behind their keys |
| CdbCompile.WriteTable | cpp_src/cdb/builder.cpp:375-447 | the region of a table is its size, its bucket slots all patched, and the buckets' regions |
| CdbBuilder.EnsureTable | cpp_src/cdb/builder.cpp:265-268 | the table for a key length exists afterwards, empty if it is new; the others are untouched |
| CdbBuilder.UpdateTable | cpp_src/cdb/builder.cpp:293 | updating one table changes no other |
| CdbBuilder.Builder.Update | cpp_src/cdb/builder.cpp:251-295 | an admissible key makes one step of the state; a key over 4096 bytes is refused and changes nothing |
| CdbBuilder.Builder.NoteLength | cpp_src/cdb/builder.cpp:274-292 | how the smallest and largest value lengths are kept, with 0 standing for none yet |
| CdbBuilder.Builder.Compile | cpp_src/cdb/builder.cpp:313-466 | the file then holds exactly the image of the state; a second call changes nothing |
| CdbBuilder.PatchHeader | cpp_src/cdb/builder.cpp:450-458 | the header is completed with the final size and the value-length attribute |
| CdbBuilder.WriteTables | cpp_src/cdb/builder.cpp:356-448 | the regions of all tables are appended and the offset slots of the header patched |
| CdbReader.DecodeSize | cpp_src/cdb/reader.cpp:299-311 | decoding a size that is followed by any bytes gives that size and stops exactly at its end |
| CdbReader.Reader.OpenData | cpp_src/cdb/reader.cpp:124-148 | data is accepted exactly when it starts with the magic, and then the fields describe the image |
| CdbReader.Reader.Search | cpp_src/cdb/reader.cpp:256-280 | the binary search finds the record of the key exactly when the bucket has one |
| CdbReader.Reader.Find | cpp_src/cdb/reader.cpp:203-336 | on bytes that encode tables, looking a key up gives what the tables hold in the bucket the reader looks into |
| CdbScenario.BuildAndCount | cpp_src/cdb/reader.cpp:338-341 | end to end: the count given by a reader of the compiled bytes is the number of keys in the map |
| Bits.OrAdds | cpp_src/cdb/reader.cpp:299-311 | or-ing a group of bits in above those that are there is an addition |
| CdbWalker.EntryAtPlace | cpp_src/cdb/walker.cpp:122-188 | a place in the triple loop is a position in the sequence of all entries |
| CdbWalker.Walker.Reset | cpp_src/cdb/walker.cpp:46-55 | the walk starts over |
| CdbWalker.Walker.WalkBucket | cpp_src/cdb/walker.cpp:162-177 | the innermost loop hands out the next record of the bucket or goes on to the next bucket |
| CdbWalker.Walker.WalkTable | cpp_src/cdb/walker.cpp:148-179 | the middle loop hands out the next entry of the table or goes on to the next key length |
| CdbWalker.Walker.Walk | cpp_src/cdb/walker.cpp:122-188 | each call hands out the next entry, from where the last one stopped; at the end it returns 0 and stays there |
| CdbTheorems.TableIsCanonical | cpp_src/cdb/builder.cpp:29-138 | two tables that hold the same map are the same, whatever the updates were |
| CdbIndependence.RegionsAgree | cpp_src/cdb/builder.cpp:356-448 | regions of the same lengths are equal together exactly when they are equal one by one |
| CdbIndependence.ImagesAgree | cpp_src/cdb/builder.cpp:313-466 | in one value-length mode two memories give the same image exactly when they give a reader the same tables |
| CdbIndependence.MemoryUnread | cpp_src/cdb/builder.cpp:433-446 | as long as no value is read past its terminator, what its buffer held before does not matter |
| CdbIndependence.MemoryShows | cpp_src/cdb/builder.cpp:433-446 | where a value is read past its terminator, memories that differ there give different tables |
| CdbIndependence.HistoryIndependence | cpp_src/cdb/builder.cpp:313-466 | histories with the same map and mode compile to the same bytes, each in any memory of its own, exactly when no value of the map is read past its terminator |
| CdbIndependence.UnmixedIndependence | cpp_src/cdb/builder.cpp:313-466 | with only empty or only non-empty values this is always so |
| CdbIndependence.DetourCompilesDifferently | cpp_src/cdb/builder.cpp:433-446 | two histories with the same map and mode that compile differently when the buffer of an emptied value still holds a byte of its old value |
| CdbIndependence.TerminatorIsEnough | cpp_src/cdb/builder.cpp:433-446 | a value one byte shorter than the mode calls for does not make the bytes depend on memory, although it does not come back |
| CdbTheorems.CompiledEncodes | cpp_src/cdb/builder.cpp:313-466 | the bytes compiled after any history encode what the builder held |
| CdbTheorems.FindsRecorded | cpp_src/cdb/reader.cpp:203-336 | a reader of the compiled tables finds the recorded value of every key but the empty one, and no other key |
| CdbTheorems.EmptyKeyIsMissed | cpp_src/cdb/reader.cpp:235 | the bucket the reader looks into never holds the empty key |
| CdbTheorems.FindAgreesExactly | cpp_src/cdb/reader.cpp:203-336 | a lookup agrees with the map exactly when the key is absent, or non-empty with a value of the recorded length |
| CdbTheorems.LengthsTracked | cpp_src/cdb/builder.cpp:274-292 | after any history the largest length is the true maximum, the smallest one only that of the values since the last empty one |
| CdbTheorems.FixedModeExactly | cpp_src/cdb/builder.cpp:333-342 | when fixed-length mode is chosen: all values empty, or all since the last empty one of the maximal length |
| CdbTheorems.UnmixedIsFaithful | cpp_src/cdb/builder.cpp:333-342 | with only empty or only non-empty values every stored value comes back unchanged, also after overwrites |
| CdbTheorems.MixedHistoryMisreads | cpp_src/cdb/builder.cpp:274-292 | a mixed history after which an empty value is read as two bytes |
| CdbTheorems.WalkListsMap | cpp_src/cdb/walker.cpp:122-188 | the walk order lists the final map: each key once, shorter keys first, as many as the header says |
| CdbOrder.CompiledInOrder | cpp_src/cdb/builder.cpp:313-466 | after any history the keys of a bucket stand in rising big-endian value in the compiled tables, and the walk goes by key length, then bucket, then that value |
| CdbScenario.Build | cpp_src/cdb/builder.cpp:251-466 | feeding a history to a builder and compiling gives the compiled bytes of that history |
| CdbScenario.BuildAndFind | cpp_src/cdb/reader.cpp:203-336 | end to end: build, compile, open, find returns the value of the last update, or none if there was none |
| CdbScenario.BuildAndWalk | cpp_src/cdb/walker.cpp:122-188 | end to end: a whole walk yields each key of the final map once and then 0, by length, bucket and big-endian value of the keys; an entry has the map's value exactly when the mode keeps it, so always after an unmixed history |
| Civil.DateOfDayNumber | cpp_src/calendar/event_matcher.cpp:36-44 | dates and day numbers correspond one to one |
| Civil.DayNumberMonotone | cpp_src/calendar/event_matcher.cpp:36-44 | later dates have larger day numbers |
| Civil.EpochIsDayZero | cpp_src/calendar/event_matcher.cpp:36-44 | the day number of 1970-01-01 is 0 |
| Civil.MonthLengths | cpp_src/calendar/event_matcher.cpp:46-55 | the days before a month: from March on 153 in every five months |
| Civil.WeekdaysFollow | cpp_src/calendar/event_matcher.cpp:26-34 | the weekdays follow each other, and 1970-01-01 is a Thursday |
| EventMatcher.IsNthWeekdayOfMonth | cpp_src/calendar/event_matcher.cpp:384-423 | the counting loops from either end of the month equal (mday-1)/7+1 and (last-mday)/7+1 |
| RuleMeaning.NthWeekdayUnique | cpp_src/calendar/event_matcher.cpp:384-423 | a month has at most one n-th weekday from either end |
| RuleMeaning.NthWeekdayExists | cpp_src/calendar/event_matcher.cpp:384-423 | for n from 1 to 4, from either end, it has one |
| RuleDays.NthWeekdayMeaning | cpp_src/calendar/event_matcher.cpp:384-423 | the n-th weekday of a month is n - 1 weeks after one of its first seven days, or before one of its last seven |
| EventMatcher.IsRruleMatchDate | cpp_src/calendar/event_matcher.cpp:167-326 | the test of a date is a property of day numbers: on or after the start, the right step of its frequency, all filters |
| RuleDays.MonthDayMeaning | cpp_src/calendar/event_matcher.cpp:97-118 | a day k is the k-th day from the first of the month, a day -k the k-th before the first of the next month |
| RuleDays.YearDayMeaning | cpp_src/calendar/event_matcher.cpp:362-382 | a day k is the k-th from the first of January, a day -k the k-th before the next first of January |
| RuleDays.DailyFiltered | cpp_src/calendar/event_matcher.cpp:179-202 | a daily rule with any filters selects every interval-th day that is in a named month, on a named weekday, and a named day of its month and year, as far as any are named |
| RuleDays.OneYearDay | cpp_src/calendar/event_matcher.cpp:362-382 | a daily rule with one day of the year selects exactly that day in every later year |
| EventMatcher.CountRruleOccurrences | cpp_src/calendar/event_matcher.cpp:328-345 | the number of selected days from the start to a date |
| EventMatcher.Matcher.MatchSecondScope | cpp_src/calendar/event_matcher.cpp:443-565 | true exactly when an occurrence within 3650 days and the count overlaps the range (for a rule without end date) |
| RuleSpan.SingleEventExactly | cpp_src/calendar/event_matcher.cpp:443-470 | a single event is in a range exactly when they have a second in common; without an end it lasts one |
| RuleSpan.SeriesExactly | cpp_src/calendar/event_matcher.cpp:443-565 | a series without an end date is in a range exactly when one of its occurrences and the range have a second in common |
| EventMatcher.Matcher.Search | cpp_src/calendar/event_matcher.cpp:505-564 | stopping at the day of the range's end, at the count and at the horizon loses no occurrence |
| RuleSpan.OccurrenceMeaning | cpp_src/calendar/event_matcher.cpp:521-533 | an occurrence starts on its day at the time of day of the event, the first with the event itself, the next 24 hours later |
| RuleSpan.OverlapsMeaning | cpp_src/calendar/event_matcher.cpp:535-536 | an occurrence falls into a range exactly when they have a second in common |
| RuleSpan.DailyOccurrences | cpp_src/calendar/event_matcher.cpp:505-564 | of a daily series exactly the first count days are found, as far as they are within 3650 days of the start |
| RuleSpan.HorizonExactly | cpp_src/calendar/event_matcher.cpp:549-558 | all of a daily series is found exactly when it has a count and its last day is within 3650 days of the first |
| RuleMeaning.DailyExactly | cpp_src/calendar/event_matcher.cpp:179-202 | a daily rule without filters selects exactly every interval-th day |
| RuleDays.SmallIntervals | cpp_src/calendar/event_matcher.cpp:167-177 | an interval below one is one |
| RuleMeaning.WeeklyExactly | cpp_src/calendar/event_matcher.cpp:204-227 | a weekly rule selects exactly its weekdays in every interval-th week, from Monday to Sunday, beginning with the week of the start |
| RuleDays.MondayMeaning | cpp_src/calendar/event_matcher.cpp:204-214 | weeks begin on Monday |
| RuleMeaning.WeeklyRepeats | cpp_src/calendar/event_matcher.cpp:204-227 | a day is selected exactly when the day interval weeks later is |
| RuleMeaning.MonthlyNthExactly | cpp_src/calendar/event_matcher.cpp:229-275 | a monthly rule with one n-th weekday, n from 1 to 4 or -4 to -1, selects exactly one day in every interval-th month after the start's, and none in the others |
| RuleDays.OneMonthDay | cpp_src/calendar/event_matcher.cpp:229-275 | a monthly rule with one day k or -k, k from 1 to 28, selects in every interval-th month after the start's exactly the k-th day, or the k-th before the first of the next |
| RuleDays.MonthlyByMonthDayExactly | cpp_src/calendar/event_matcher.cpp:229-275 | a monthly rule with any days of the month selects just these in every interval-th month |
| RuleDays.MonthlyWeekdaysExactly | cpp_src/calendar/event_matcher.cpp:229-275 | a monthly rule with weekdays without ordinals selects every such day in every interval-th month |
| RuleMeaning.MonthlyFromStart | cpp_src/calendar/event_matcher.cpp:229-275 | a monthly rule without filters selects the day of the start, in every interval-th month that is long enough |
| RuleDays.MonthsFollow | cpp_src/calendar/event_matcher.cpp:229-235 | the number of a month is one more than that of the month before, across the end of a year too |
| RuleMeaning.YearlyFromStart | cpp_src/calendar/event_matcher.cpp:277-323 | a yearly rule without filters selects the anniversary, in every interval-th year that has one |
| RuleMeaning.YearlyByMonthSelectsWholeMonths | cpp_src/calendar/event_matcher.cpp:277-323 | with months only, a yearly rule selects every day of these months in every interval-th year, whatever the day of the start |
| RuleMeaning.YearlyByMonthExactly | cpp_src/calendar/event_matcher.cpp:277-323 | that is what the standard asks for exactly when the rule names no month from 1 to 12 |
| RuleGaps.YearlyOrdinalExactly | cpp_src/calendar/event_matcher.cpp:277-323 | a yearly rule with one n-th weekday selects the n-th of the year exactly when there is none, and it selects any day at all exactly when n is at most 5 |
| RuleGaps.YearDayExactly | cpp_src/calendar/event_matcher.cpp:277-323 | a yearly rule with one day of the year selects what the standard asks for, in a year it applies to, exactly when that day is the anniversary of the start or the year has no such day |
| RuleGaps.SetPositionsExactly | cpp_src/calendar/event_matcher.cpp:229-275 | a monthly rule with one n-th weekday selects only days at its named positions exactly when it names none, the first or the last |
| RuleMeaning.WiderRange | cpp_src/calendar/event_matcher.cpp:443-565 | widening the range never loses an occurrence |
| UntilLimit.SearchIgnoresUntil | cpp_src/calendar/event_matcher.cpp:505-564 | what the search finds is what the end date asks for, in every range, exactly when no occurrence starts after the end date |
| UntilLimit.AcceptedRangesExactly | cpp_src/calendar/event_matcher.cpp:471-479 | the same of the whole matcher, over the ranges that the comparison lets through |
| UntilLimit.AllRangesExactly | cpp_src/calendar/event_matcher.cpp:443-565 | over all ranges the matcher is right exactly when every occurrence starts after the end date and is not let through |
| UntilLimit.SmallUntilRefusesAll | cpp_src/calendar/event_matcher.cpp:471-479 | an end date below the day of the start, written yyyymmdd, makes the matcher refuse every range |
| UntilLimit.LargeUntilAccepts | cpp_src/calendar/event_matcher.cpp:471-479 | an end date from 10^8 seconds on lets every range up to the year 9999 through |
| UntilLimit.AcceptsWrittenDay | cpp_src/calendar/event_matcher.cpp:471-479 | were the end date a day written yyyymmdd, just the ranges that end on that day or before would be let through |
| UntilLimit.NeverEnds | cpp_src/calendar/event_matcher.cpp:443-565 | a daily event that ends in March 1973 is found in April 1973 |
| UntilLimit.RefusedTooEarly | cpp_src/calendar/event_matcher.cpp:443-565 | a daily event that ends on 12 January 1970 is found nowhere, not even on 2 January |
| RruleText.AtoiToString | include/zcc/zcc_stdlib.h:741-742 | a printed number is read back whatever non-digit follows |
| RuleTokens.AtoiMeaning | include/zcc/zcc_stdlib.h:741-742 | a number is read behind blanks and a sign; without a digit it is 0 |
| RuleTokens.CharacterClasses | cpp_src/calendar/ics_calendar.cpp:166-185 | blanks, digits and letters are those of the C locale |
| RruleText.SplitIgnoringEmpty | cpp_src/stdlib/string.cpp:606-650 | the tokens between delimiters without the empty ones; one empty token for a text of delimiters only |
| RruleText.SplitJoin | cpp_src/stdlib/string.cpp:606-650 | splitting undoes joining |
| RuleTokens.SplitGaps | cpp_src/stdlib/string.cpp:606-650 | a delimiter in front, at the end or next to another one adds no token |
| RruleText.WeekdayRoundTrip | cpp_src/calendar/ics_calendar.cpp:152-186 | a printed weekday with its signed ordinal is read back |
| RruleForm.Trim | cpp_src/stdlib/string.cpp:519-545 | blanks at both ends are removed |
| RuleTokens.TrimExactly | cpp_src/stdlib/string.cpp:519-545 | what is left is what stands between the blanks at both ends |
| RruleForm.ReadWeekday | cpp_src/calendar/ics_calendar.cpp:166-185 | the loop over one token: ordinal, letters, name; nothing for an unknown name |
| RuleTokens.NulEndsToken | cpp_src/calendar/ics_calendar.cpp:173-181 | a weekday whose name stands behind a NUL is not read |
| RruleForm.Parse | cpp_src/calendar/ics_calendar.cpp:66-239 | the loop over the parts and the defaults from the start of the event |
| RuleDefaults.DefaultsChangeNothing | cpp_src/calendar/ics_calendar.cpp:202-238 | what the parser fills in for monthly and yearly rules is what the matcher does without it |
| RuleDefaults.WeeklyDefault | cpp_src/calendar/ics_calendar.cpp:204-215 | a weekly rule without weekdays selects, filled in, the start and only days on its weekday |
| RuleNames.NamesRead | cpp_src/calendar/ics_calendar.cpp:95-201 | the names of section 3.3.10 of RFC 5545 are read in any mix of capital and small letters |
| RuleNames.ListsRead | cpp_src/calendar/ics_calendar.cpp:131-201 | each part with a list of numbers adds it to the field of its name and changes nothing else |
| RuleNames.OthersRead | cpp_src/calendar/ics_calendar.cpp:95-186 | interval, count, weekdays and frequency go to their fields and change nothing else |
| RruleForm.Build | cpp_src/calendar/ics_calendar.cpp:241-361 | the appended text is the parts of the rule joined by semicolons, in the source's order |
| RuleNames.NamesWritten | cpp_src/calendar/ics_calendar.cpp:241-361 | parts, frequencies and weekdays are written with the names of section 3.3.10 of RFC 5545 |
| RruleForm.NumberList | cpp_src/calendar/ics_calendar.cpp:131-151 | a printed list of numbers is read back |
| RruleForm.NameList | cpp_src/calendar/ics_calendar.cpp:152-186 | a printed list of weekdays is read back |
| RruleForm.BuildThenParse | cpp_src/calendar/ics_calendar.cpp:241-361 | a rule with nothing left to default is read back from its text as it was |
| RruleForm.NormalFormStable | cpp_src/calendar/ics_calendar.cpp:66-361 | for every text with a known frequency and no end date, parsing the printed form of the parsed rule gives the rule again |
| RruleForm.OrdinalKeptExactly | cpp_src/calendar/ics_calendar.cpp:169-172 | every weekday token keeps its ordinal exactly when it does not begin with a plus sign or a blank, or has none |
| RruleForm.PlusIsLost | cpp_src/calendar/ics_calendar.cpp:169-172 | with a plus sign any n-th weekday becomes every such weekday; without it, it is read |
| IcsText.EscapeTextValue | cpp_src/calendar/ics_calendar.cpp:1594-1628 | the loop escapes byte by byte; no line break is left |
| Escapes.EscapedIsStandard | cpp_src/calendar/ics_calendar.cpp:1593-1624 | no separator or line break is left bare; the text is one of section 3.3.11 of RFC 5545 exactly when the value has no carriage return, and then it means the value |
| IcsText.EscapeDescription | cpp_src/calendar/ics_calendar.cpp:1630-1671 | the loop gives the escaped pieces with a line break and a blank between them, and no break at the end |
| FoldedText.FoldsBetweenCharacters | cpp_src/calendar/ics_calendar.cpp:1626-1671 | a text of UTF-8 characters is folded between characters only: each piece begins with one, all but the last have 77 to 80 bytes |
| FoldedText.StrayContinuation | include/zcc/zcc_charset.h:96-122 | a continuation byte where a character should begin, and no other byte, counts for five bytes |
| FoldedText.FoldLimitExactly | cpp_src/calendar/ics_calendar.cpp:1626-1671 | the lines stay within 75 octets, behind what is on the first already, exactly when the escaped text fits there without a fold |
| IcsText.TrimLineEnd | cpp_src/stdlib/string.cpp:504-517 | one line end is removed, and nothing else |
| IcsText.GetLines | cpp_src/begin_end_text/begin_end_text.cpp:81-122 | the loop gives the unfolded lines, leading empty ones dropped |
| IcsText.UnfoldFolded | cpp_src/begin_end_text/begin_end_text.cpp:81-122 | unfolding undoes folding wherever the folds fall |
| Unfolding.AnyLineEnds | cpp_src/begin_end_text/begin_end_text.cpp:81-122 | whatever the line ends, and whether folded before a blank or a tab: every logical line whole and in order, without blank lines in front |
| ContentLine.ParseOneLine | cpp_src/begin_end_text/begin_end_text.cpp:124-222 | the two loops give the key in lower case, the parameters and the unescaped value |
| ContentLine.KeyAlone | cpp_src/begin_end_text/begin_end_text.cpp:124-192 | a line without a colon, a semicolon or a quote is a key alone |
| RuleNames.LowerMeaning | cpp_src/begin_end_text/begin_end_text.cpp:124-239 | capital letters, and no others, become the small letters at their place of the alphabet |
| ContentLine.ParseOneParam | cpp_src/begin_end_text/begin_end_text.cpp:224-239 | a parameter is split at its first equals sign, its key in lower case |
| ContentLine.UnescapeEscape | cpp_src/begin_end_text/begin_end_text.cpp:193-221 | unescaping undoes escaping, for every text |
| Escapes.UnescapeWritten | cpp_src/begin_end_text/begin_end_text.cpp:193-221 | each character behind a backslash is read as itself, but small n, r and t as line feed, carriage return and tab |
| Escapes.UnescapeExactly | cpp_src/begin_end_text/begin_end_text.cpp:193-221 | a text with the escapes of the standard is read as the standard means it exactly when it writes no line break with a capital N |
| ContentLine.ParsePrinted | cpp_src/begin_end_text/begin_end_text.cpp:124-222 | a line written with quoted parameters and an escaped value is read back, with its keys in lower case |
| ContentLine.DescriptionRoundTrip | cpp_src/calendar/ics_calendar.cpp:1630-1671 | a folded and escaped description reads back as one line with exactly its text |
| BeginEnd.DocumentOrder | cpp_src/begin_end_text/begin_end_text.cpp:54-79 | for every sequence of lines, balanced or not, the tree holds all lines but the ENDs, once each and in order |
| BeginEnd.ParsePrintedForest | cpp_src/begin_end_text/begin_end_text.cpp:54-79 | reading the printed form of a forest gives that forest back |
| BeginEnd.TextRoundTrip | cpp_src/begin_end_text/begin_end_text.cpp:54-239 | a forest written out as text, lines escaped, is what the parser makes of that text |
| BeginEndTree.AddLeaf | cpp_src/begin_end_text/begin_end_text.cpp:77 | a plain line becomes the last child of the current node |
| BeginEndTree.Open | cpp_src/begin_end_text/begin_end_text.cpp:61-67 | a BEGIN line becomes the last child and the current node, linked to its parent |
| BeginEndTree.PopBuilding | cpp_src/begin_end_text/begin_end_text.cpp:68-76 | an END line makes the parent current, and what is below the node is complete |
| BeginEndTree.Parse | cpp_src/begin_end_text/begin_end_text.cpp:54-79 | the linked nodes below the root are the tree of the lines; the current node stays on the rightmost spine |
| BeginEndTree.ParseText | cpp_src/begin_end_text/begin_end_text.cpp:254-271 | the node handed out is the first top-level one, or the bare root |
| AioQueue.Append | include/zcc/zcc_link.h:25-42 | a free node becomes the last of the queue |
| AioQueue.Detach | include/zcc/zcc_link.h:99-120 | a node of the queue is taken out wherever it stands; the others keep their order |
| AioQueue.Concat | include/zcc/zcc_link.h:122-140 | the second queue follows the first |
| AioRead.HitMeaning | cpp_src/event/aio.cpp:872-958 | the delimiter search ends at the first delimiter or at the limit, whichever comes first |
| AioRead.HitSplit | cpp_src/event/aio.cpp:872-958 | searching only the bytes just read is enough when the earlier ones gave no answer |
| AioRead.AnswerStable | cpp_src/event/aio.cpp:829-1028 | the answer to a request never changes when more bytes arrive |
| AioRead.Handle.IssueReadN | cpp_src/event/aio.cpp:1366-1372 | the request is under way, with all cached bytes to be looked at |
| AioRead.Handle.IssueReadDelimiter | cpp_src/event/aio.cpp:1374-1382 | the request is under way, with all cached bytes to be looked at |
| AioRead.Handle.IssueGetCint | cpp_src/event/aio.cpp:1384-1400 | the request is under way, with or without data |
| AioRead.Handle.IoRead | cpp_src/event/aio.cpp:532-590 | one read moves bytes from the stream to the buffer and loses none |
| AioRead.Handle.ActiveReadN | cpp_src/event/aio.cpp:829-870 | calls back with the length when it is cached, with -1 at the end of the stream, else waits; no byte is lost |
| AioRead.Handle.ActiveReadDelimiter | cpp_src/event/aio.cpp:872-958 | calls back with the answer of all bytes received, or waits with none of them searched in vain |
| AioRead.Handle.ActiveReadCint | cpp_src/event/aio.cpp:960-1028 | decodes a length of at most four bytes, takes it out, and calls back or queues again for the data |
| AioRead.Handle.Activate | cpp_src/event/aio.cpp:829-1028 | one activation at any stage; a timeout gives -1 or -2 and touches no byte |
| AioRead.Handle.Await | cpp_src/event/aio.cpp:829-1028 | over any reads and any suspensions the callback gets the answer of the plain stream, cached plus unread bytes are the rest of it, and every use of the cache is on record |
| AioRead.Handle.GetReadCache | cpp_src/event/aio.cpp:1304-1315 | the bytes taken are the first ones cached |
| AioSession.Session | cpp_src/event/aio.cpp:829-1028 | a whole session of requests gives what the requests yield over the plain stream, however it was split; the blocks of the cache hold its bytes after every use when at most 4096 bytes come in, in all or between two times when it is empty |
| AioSession.DecodeVarint | cpp_src/event/aio.cpp:984-1014 | the decoder reads what the varint writer wrote exactly below 2^28, and refuses longer forms |
| AioSession.FramesRoundTrip | cpp_src/event/aio.cpp:1462-1472 | pieces sent with their lengths come out whole and in order |
| AioItems.AnsweredByItem | cpp_src/event/aio.cpp:829-1028 | a request for a length, a delimiter, a number or a framed piece is answered by just that, and leaves exactly what follows |
| AioItems.NotBefore | cpp_src/event/aio.cpp:829-1028 | with a byte of its item missing a request waits, or fails at the end of the stream |
| AioItems.StreamServed | cpp_src/event/aio.cpp:829-1028 | in a stream of blocks, delimited lines, numbers and framed pieces every request gets its item whole and in order; the last one not before its last byte is there, and an error if the stream ends first |
| AioSession.CacheWriteCintAndData | cpp_src/event/aio.cpp:1462-1472 | the length and then the data are appended to what is to be written, as two uses of the write cache |
| AioSession.Send | cpp_src/event/aio.cpp:1462-1472 | the pieces written one after the other are what goes on the wire, and what was done with the write cache is on record |
| AioSession.SenderInBlocksExactly | cpp_src/event/aio.cpp:1462-1472 | the blocks of the write cache hold what a sender put in, after every use, exactly when it is 4096 bytes at most |
| AioSession.Transfer | cpp_src/event/aio.cpp:960-1028 | what a sender wrote with lengths is received whole and in order, whatever pieces it arrives in; in blocks when at most 4096 bytes come in, in all or between two times when the cache is empty |
| AioSession.SendAndReceive | cpp_src/event/aio.cpp:960-1028 | sender and receiver together, for every way of cutting the wire; the blocks of the sender hold what it sends exactly when it is 4096 bytes at most, and then those of the receiver do too |
| AioSession.LongPieceRefused | cpp_src/event/aio.cpp:984-1014 | a piece of 2^28 bytes or more is refused |
| AioCache.Cache.Append | cpp_src/event/aio.cpp:315-368 | the loop over the bytes, block by block, as the code links the blocks |
| AioCache.Cache.Shift | cpp_src/event/aio.cpp:221-289 | the first bytes are taken out, and the rest stays |
| AioCache.AppendsExactly | cpp_src/event/aio.cpp:315-368 | the cached bytes become the old ones followed by the new exactly when no block is started behind one that holds more than its last byte |
| AioCache.BlocksAreBytesExactly | cpp_src/event/aio.cpp:221-368 | over a whole run of reads and takes the blocks hold what a sequence of bytes would, after every step, exactly when everything read fits at its time |
| AioCache.ShortBurstsInBlocks | cpp_src/event/aio.cpp:221-368 | runs that put in at most 4096 bytes, in all or between two times when the cache is empty, are held by the blocks after every step |
| AioCache.OnlyPutsExactly | cpp_src/event/aio.cpp:315-368 | with nothing taken out in between, the blocks hold what is put in exactly when it is 4096 bytes at most |
| AioCache.FullBlockThenOne | cpp_src/event/aio.cpp:315-368 | a read of 4096 bytes and one of a single byte: 4097 bytes are counted and two are held |
| AioLoopSteps.StepKeeps | cpp_src/event/aio.cpp:370-529 | every step of the loop, of clients that keep to the discipline and of other threads keeps the invariant of all handles |
| AioLoopSteps.DisarmKeeps | cpp_src/event/aio.cpp:1239-1277 | a disabled handle is in no queue, not in the tree and not registered |
| AioLoopSteps.CompleteKeeps | cpp_src/event/aio.cpp:60-69 | after a callback other than for readable and writeable the handle is out of everything |
| AioLoopRuns.NeverLinkedTwice | cpp_src/event/aio.cpp:484-529 | in every reachable state a handle's node is in at most one place, the flags say which, and no request under way is lost |
| AioLoopFaults.NoFaultNoDouble | cpp_src/event/aio.cpp:370-529 | whatever clients and the system did, as long as no fault was seen no node is linked twice, not even twice in one queue |
| AioLoopRuns.WaitsWhereAnswered | cpp_src/event/aio.cpp:370-477 | a waiting readable, writeable or sleep is registered for just its event, or in the tree |
| AioLoopRuns.OverIsOver | cpp_src/event/aio.cpp:1571-1645 | a request that has called back is never activated again until reissued, except readable and writeable |
| AioLoopRuns.MayIssueExactly | cpp_src/event/aio.cpp:370-529 | the discipline is exact: in client code, on an idle handle, a request that keeps to it never leads to a node linked twice, and any other request can |
| AioLoopRuns.LateIssueFaultsExactly | cpp_src/event/aio.cpp:1571-1645 | a request on an idle handle in a callback of the drain or of the timers can fault exactly when the handle is still registered and the request is no readable or writeable |
| AioLoopRuns.QuietIssueIsSafe | cpp_src/event/aio.cpp:759-777 | whatever is asked of an idle handle that is not registered, and a readable or writeable asked of any idle handle, nothing is linked twice afterwards |
| AioLoopRuns.RegisteredCintFaultsExactly | cpp_src/event/aio.cpp:960-1028 | between the events and the next drain, with no event of the handle to come, asking an idle handle for a length with data can fault exactly when it is still registered |
| AioLoopRuns.LateIssueReached | cpp_src/event/aio.cpp:759-777 | a readable that runs out of time is still registered in its callback |
| AioLoopRuns.EventCallbackReached | cpp_src/event/aio.cpp:759-777 | a readable that is reported ready is still registered in its callback |
| Base64.Encode | cpp_src/encode/base64.cpp:275-328 | the loop writes groups of four characters and a line break after every nineteenth |
| Base64Format.GroupIsNumber | cpp_src/encode/base64.cpp:275-328 | three bytes and their four characters are the same 24-bit number, most significant bits first |
| Base64Format.FullLine | cpp_src/encode/base64.cpp:316-326 | a line break stands behind every 57 bytes, even at the end |
| Base64Format.AlphabetExactly | cpp_src/encode/base64.cpp:13-273 | the alphabet of RFC 4648 in its order; every other character is illegal |
| Base64.Decode | cpp_src/encode/base64.cpp:337-451 | the loop decodes the characters that matter in groups of four, tolerating missing padding, and stops at an illegal one |
| Base64.NextCh | cpp_src/encode/base64.cpp:353-376 | the next character behind blanks and percent escapes |
| Base64.DecodeEncoded | cpp_src/encode/base64.cpp:275-451 | texts encoded one after the other decode to the bytes one after the other, with or without line breaks |
| Base64Format.StopsAtIllegal | cpp_src/encode/base64.cpp:337-451 | at an illegal character decoding stops, and the letters of the group it interrupts are forgotten |
| Base64.BlanksIgnored | cpp_src/encode/base64.cpp:353-376 | blanks and line breaks anywhere change nothing |
| Base64.PaddingIgnored | cpp_src/encode/base64.cpp:353-376 | a trailing padding character more or less changes nothing, for every text |
| Base64.EncodedLines | cpp_src/encode/base64.cpp:316-326 | with line breaks no line is longer than 76 characters |
| Base64.EncodedFits | cpp_src/encode/base64.cpp:486-498 | the output is shorter than the length callers are told to reserve |
| QuotedPrintable.Encode | cpp_src/encode/quoted_printable.cpp:15-47 | the loop writes characters or hexadecimal escapes, with soft breaks where asked for |
| QuotedFormat.LiteralExactly | cpp_src/encode/quoted_printable.cpp:15-47 | a character stands for itself exactly when it is printable and no equals sign |
| QuotedFormat.SevenBit | cpp_src/encode/quoted_printable.cpp:15-47 | only printable characters and line ends are written |
| QuotedPrintable.Decode | cpp_src/encode/quoted_printable.cpp:102-142 | the loop decodes escapes and skips soft breaks of any kind |
| QuotedPrintable.DecodeEncoded | cpp_src/encode/quoted_printable.cpp:15-142 | texts encoded one after the other decode to the bytes one after the other, soft breaks on or off |
| QuotedFormat.CutEscapeIgnored | cpp_src/encode/quoted_printable.cpp:102-142 | an equals sign with less than two characters behind it ends the text |
| QuotedFormat.EscapeRead | cpp_src/encode/quoted_printable.cpp:102-142 | an escape is read with digits of either case |
| QuotedFormat.WrongDigitRead | cpp_src/encode/quoted_printable.cpp:102-142 | a wrong digit counts as all ones |
| QuotedFormat.SoftBreaksIgnored | cpp_src/encode/quoted_printable.cpp:102-142 | a soft break of one or of two line-end characters, of either kind, changes nothing |
| QuotedPrintable.EncodedLines | cpp_src/encode/quoted_printable.cpp:36-45 | with soft breaks a line has at most 80 characters |
| QuotedPrintable.WithinLimitExactly | cpp_src/encode/quoted_printable.cpp:36-45 | from any column, the lines stay within 76 characters exactly when no break is needed |
| QuotedPrintable.EightyReached | cpp_src/encode/quoted_printable.cpp:36-45 | a line of 80 characters |

## Left out

- CdbReader.Reader.Find: is stated for bytes that encode tables; what it reads from other bytes is not modelled.
- CdbReader.Reader.OpenData: takes at least 24 bytes, which the source reads without a check.
- CdbBuilder.Builder.Compile: images of 2^30 bytes and more, where the doubling of the capacity leaves the int range.
- CdbFile.File.Write: takes one block of bytes where the source takes a size and a number; they are multiplied by the caller.
- EventMatcher.Matcher.MatchSecondScope: UTC only, and times from year 1 on; time zones are not part of this model.
- RuleGaps.SetPositionsExactly: positions of other rules than monthly ones with one n-th weekday; the code never reads them there either.
- Week numbers (`byweekno`): they are parsed and printed, and matching never reads them; what the standard asks of them is not modelled.
- IcsText.EscapeDescription: texts whose announced character lengths stay in bounds and that contain no NUL, where the source's own loop ends; the HTML mode rests on an encoder that is not part of this model.
- RruleForm.Parse: numbers are unbounded, where the source's conversion overflows beyond an int; the reading of end dates and the lookup of the local start are parameters.
- RruleForm.NormalFormStable: rules with an end date, whose text form rests on date conversions that are parameters here.
- AioRead.Handle.IoRead: reads through TLS, and errors of read that are not the end of the stream, count as nothing yet or as the end.
- AioRead.Handle.Await: the cache is read as one sequence of bytes, not block by block; its uses are on record, and by AioCache.BlocksAreBytesExactly the blocks hold these bytes exactly as long as everything put in fits.
- AioSession.Session: beyond 4096 bytes between two times when the cache is empty, what the handle does with damaged blocks is not followed; the same of AioSession.Transfer and AioSession.SendAndReceive.
- AioSession.Send: nothing is written out between two pieces; a flush in between that empties the cache lets the blocks begin anew. The same of AioSession.CacheWriteCintAndData.
- AioLoopSteps.StepKeeps: which of several expired handles comes first, the contents of the caches, sockets, and the memory of closed handles; taking over both queues is one step although another thread may append in between.
- Negative lengths that stand for the length of a terminated string, opening and mapping files, reading a database from a file, and releasing nodes and buffers.
- The `_error` field of the database builder: nothing in the source ever sets it.
- Blocks of foreign memory in the write cache, plain `read`, `writen`, TLS handshakes as byte transfers, and `iopipe`.
- `qp_encode_2047`, `base64_decode_get_valid_len`, hexadecimal and other encodings: tables and simple folds, or no round trip.
- Parameter lookup, decoded values and debug output of BEGIN/END nodes, JSON, alarms and the other fields of events: field plumbing.
