# FST wave traces: a Dafny model

This project models the parts of the repository that carry most of its logic, as Dafny programs over byte sequences,
and proves what they are for:

- the FST trace engine of `include/libfst/fstapi.c`: the writer's log and flush, the block format, the reader's index
  tables and its interleaving of signals by time, value lookup with its cached position, the hierarchy section, and
  enumeration tables;
- the two compressors it uses, LZ4 (`include/libfst/lz4.c`) and FastLZ (`include/libfst/fastlz.c`), compressing and
  decompressing, with the fast copies of the LZ4 decoder;
- the parallel FIRRTL front end (`parser/firParser.cpp`): cutting the text, and the pool of parser threads under every
  schedule, with the grammar as an arbitrary function;
- the bit-slice algebra of `include/splitNode.h` and the registers of `DecoupledGCD.scala`.

Verify it with `dafny verify dfyconfig.toml`. Source that changes objects, buffers or arrays step by step is modelled
by classes and methods with loops; each is tied to a specification function, and the properties are proved about that.

## How the main results fit together

`WriterSpec` is a small state machine over the calls of the API: it says which value changes count and what time each
has, beside `Told`, which says what the calls mean. `FstTrace.WriteTrace` runs the writer object of `FstWriter` on any
sequence of allowed calls and shows that the blocks of the file hold, signal by signal, exactly the changes that count.
`FstTrace.ReadTrace` runs the reader of `FstReader` on such a file and shows that each selected signal is reported with
exactly its changes, in order and each once; that the times are those of the calls exactly for the signals `Timeliness`
calls punctual; and that if all selected ones are, all reports together go forward in time. In between lie `ValueLog`
(back-linked entries to records), `ChainCodec` (one record), `Packing` and the compressors, `AliasTable`
(deduplication), `BlockIndex` and `ChainTables` (the index and the tables rebuilt from it), `TimeTable`, `BlockLayout`
(sections in the file) and `Interleave` with `Buckets` (merging the chains by time). `ByteExamples` writes out the bytes
of each format for small values, so that writer and reader cannot agree on another one.

`ValueQueries.ForwardLookups` is the other way to read such a file: a series of queries for values at times that do not go
back. `BlockSearch` finds blocks, `ValueQueries.ValueReader` keeps what the reader remembers between queries, `LookupTrace`
ties a lookup in one block to the whole history through the checkpoint in the block's frame, and `TraceLookup` says when
the answer is the value the calls gave the signal.

## What the code does not promise

Some expected properties do not hold for every input. Each has an exact condition and, where it helps, a concrete case.

- `pidx` in `fstReaderIterBlocks2` (line 5054) keeps its value from one block to the next, and a length is stored through
  it before the new block has set it (line 5538). Whatever is left in the tables, `ChainTables.Tables.ReadIndex` says that
  handles with changes get what is theirs, and that all handles do exactly if no leftover number below zero refers a
  handle without changes to one with changes (`Harmless`). `FstReader.LeftAfter` carries the leftovers from block to
  block, and `ReadTrace` asks only that no selected handle is led to another one's chain (`Kept`). `FstReader.IterBlocks`
  also says what is reported otherwise: the changes of the handle the bytes belong to, read with the width of the handle
  they were found under; by `SeenChains.SeenExactly` these are a handle's own in a block exactly if it is kept there and
  its alias, if it is one, is not mixed up.
  `ChainTables.LeftoverMayBeHarmless` has a leftover that does nothing; `ChainTables.StaleIndexMisleads` has one that
  misleads, and by `StaleRun.RunMisleads` every file of a run of eight calls with three one-bit signals has just that;
  `StaleRun.RunReported` says which change is then reported that was never made.
- A flush that comes due while the block has no change returns early (line 1316), but the time change still appends an
  item (lines 3250-3251), and later changes may get wrong times. `Timeliness.RightExactly` is the exact condition at every
  point of every run: as many of the block's latest time items as it has seen such flushes add up to the times of those
  flushes, modulo 2^64. `Timeliness.OneEmptyFlush` spells it out for one such flush. A signal's changes in the file are
  those of the calls exactly if each was made while that was so (`Timeliness.EmittedExactly`), and the whole trace is
  right exactly if that is so for all signals (`Timeliness.TraceExactly`). `Timeliness.EmptyFlushShiftsTime` has a run of
  six calls after which a change is stored under time 14, whatever time it was made at.
- A lookup at the end of a block that is not loaded yet looks for the next block's header one byte behind the beginning of
  this one's (lines 6269-6288: `blkpos` has been moved behind the type only, not behind the section), unless the time is
  the end of the trace. `BlockSearch.FindBlock` says that the search ends with the section of the first block that covers
  the time exactly at all other times, and `BlockSearch.Misread` what it ends with instead. As each block begins where the
  one before ends, these are the times at which a flush closed a block; `LookupRuns.BoundaryTimeLost` has a run of six
  calls.
- A lookup at the end of the trace is answered from the first block that ends there (lines 6267-6290), and one at the end
  of a loaded block from that block (lines 6233-6239), although later blocks may have changes at the same time.
  `TraceLookup.LookupIsTold` says that the answer is the value of the calls exactly if the changes of the signal that
  later blocks hold for this very time leave it; at the end of the trace, if the last of the later changes, if there is
  one, is to the same value. `LookupRuns.EndTimeMissed` has a run of seven calls for which the answer is another.
- The 32-bit shifts of one-bit records lose high bits of the time difference exactly from 2^28 on for letters and from
  2^30 on for 0 and 1 (`ChainCodec.OneBitRoundTrip`).
- The key of the alias table does not say whether the bytes are packed (lines 1495-1612). `Packing.KeyMeans` and
  `FstReader.AliasMeans` say that equal keys mean equal chains exactly if both are packed or neither is; `ReadTrace`
  asks for that of the selected handles (`Unmixed`). `KeyCollision.TwoChainsOneKey` has two chains that differ and
  share a key: a bit set to 1 in forty steps, packed by LZ4, and a ten-character signal that changes once. By
  `KeyCollision.KeyHasTwin` there is such a signal for every chain packed into 3 to 32 bytes that read as a record.
- Line 6623 lowers the cached time of a value lookup and leaves the cached position. `ValueLookup.QueryRight` says exactly
  which queries are then still answered as by a scan from the start, `ValueLookup.StaleAnswer` shows a wrong answer, and
  `ValueLookup.ForwardQueries` that queries going forward in time are all right.
- The reader's switch over variable types ends at 29, while this repository added the FIRRTL types 30 to 37. A hierarchy
  comes back up to the first such variable and no further; all of it comes back exactly if there is none
  (`Hierarchy.AllComeBack`, `Hierarchy.FirrtlTypeStops`).
- The assertion in `NodeElement::getBits` admits the position just past the width. `SplitNode.SelectIsSlice` says exactly
  for which elements the selection is then still right. `NodeComponents.SelfMergeMeans` says when merging an element with
  itself is a concatenation.
- The name of an enumeration table comes back exactly if it has no space in it (`EnumTable.TableRoundTrip`).
- The FastLZ decoder does not look at the end of its input inside a match instruction (lines 440-461 of `fastlz.c`). The
  model stops there with an outcome of its own, `OverRead`, exactly if decoding gets to a match whose operands run out and
  everything before it fits (`FastLzDecode.RunsOver`). The readers pass a length that is too long by the chain's header
  (lines 5654-5679), so bytes of the next chain follow the block: then it is so exactly if these begin with a match whose
  operands run out (`BreaksOff`), and for a chain of less than 128 bytes with another one behind it exactly if that one is
  packed (`FstReader.NextChainDecides`). What the block itself decodes to is not harmed. `FastLzDecode.OneByteBehind` has
  three bytes for which it happens.

## Model

| member | source | states |
|---|---|---|
| Bytes.WriteUint64 | include/libfst/fstapi.c:388-402 | the eight bytes written are the number, most significant byte first, taken modulo 2^64 |
| Bytes.BigEndianRoundTrip | include/libfst/fstapi.c:388-419 | reading fixed-width big-endian digits gives back every number that fits them |
| Leb128.WriteVarint | include/libfst/fstapi.c:652-670 | the loop over seven-bit groups writes the unsigned LEB128 form of the number |
| Leb128.CopyVarintToLeft | include/libfst/fstapi.c:483-509 | the encoding is laid down so that it ends just before the given place; no other byte of the buffer changes |
| Leb128.GetVarint | include/libfst/fstapi.c:421-481 | reading gives the number spelled by the groups modulo the width of the result, and how many bytes it took |
| Leb128.VarintReads | include/libfst/fstapi.c:421-481 | every number written is read back, whatever follows it in the buffer |
| Leb128.VarintPrefixFree | include/libfst/fstapi.c:652-670 | no encoding is a prefix of another, and two numbers never share one |
| Leb128.ReadVarint | include/libfst/fstapi.c:551-650 | reading from a file stops at the byte limit of the width; otherwise it gives the spelled number modulo the width |
| Leb128.WriteSVarint | include/libfst/fstapi.c:701-733 | the signed loop writes the SLEB128 form, with the arithmetic shift rounding down |
| Leb128.SVarintReads | include/libfst/fstapi.c:673-698 | the two's complement value of the groups written for a number is the number, negative ones included |
| Leb128.GetSVarint64 | include/libfst/fstapi.c:673-698 | or-ing groups into a 64-bit word and extending the sign only while there is room gives the signed value wrapped to 64 bits |
| Leb128.GetSVarintOf | include/libfst/fstapi.c:673-733 | every 64-bit signed number survives writing and reading |
| ChainCodec.OneBitRoundTrip | include/libfst/fstapi.c:1364-1379 | a one-bit record gives back its time difference exactly if that is below 2^28 for letters and 2^30 for 0 and 1; the character comes back folded to `01xzhuwl-` |
| ChainCodec.LettersKept | include/libfst/fstapi.c:1364-1379 | each of the characters 0 1 x z h u w l - comes back from its word as it is |
| ChainCodec.CapitalsFolded | include/libfst/fstapi.c:1364-1379 | X Z H U W L come back as x z h u w l |
| ChainCodec.OthersAreDashes | include/libfst/fstapi.c:1364-1379 | every other character comes back as a dash |
| ChainCodec.PackToLeft | include/libfst/fstapi.c:1445-1461 | the unrolled loop that runs from the last character to the first produces the packed bits, first character in the top bit, just before the given place |
| ChainCodec.PackBitsInjective | include/libfst/fstapi.c:1445-1461 | two 0/1 values of one length with the same packed bytes are the same value |
| ChainCodec.UnpackBits | include/libfst/fstapi.c:5640-6111 | unpacking the bits of a packed value gives its characters |
| ChainCodec.RecToLeft | include/libfst/fstapi.c:1357-1472 | one turn of the flush for one-bit, packed, plain and variable-length values puts the complete record just before the previous one |
| ChainCodec.HeaderRoundTrip | include/libfst/fstapi.c:1364-1472 | the time difference taken from a header word is the one the record was written with |
| ChainCodec.GetRecord | include/libfst/fstapi.c:5781-6092 | decoding at the head of a chain gives the record's value after normalisation and the exact number of bytes it takes |
| ChainCodec.RecordShrinks | include/libfst/fstapi.c:860-912 | a record of a chain is no longer than the log entry it was made from |
| ChainCodec.RecUnique | include/libfst/fstapi.c:1364-1472 | two records that lie at the same place are equal, apart from letters of one-bit signals that the code folds |
| ValueLog.MakeEntry | include/libfst/fstapi.c:860-912 | the bytes appended for a value change are link, step difference, length where variable, and value |
| ValueLog.LogGrows | include/libfst/fstapi.c:3033-3036 | appending an entry linked to the previous head makes a log with one more record |
| ValueLog.LogKept | include/libfst/fstapi.c:3033-3036 | entries appended for other signals leave a signal's log as it was |
| ValueLog.ChainFits | include/libfst/fstapi.c:1320-1344 | the re-encoded chain of any signal fits a scratch area of the size of the log |
| ValueLog.HeadValue | include/libfst/fstapi.c:1349-1414 | the value read before the walk is the signal's latest one |
| ValueLog.BuildChain | include/libfst/fstapi.c:1344-1475 | following the links backwards and writing backwards gives the records' bytes in forward order |
| AliasTable.AliasTable.Insert | include/libfst/fstapi.c:6932-6971 | move-to-front lookup returns the node of exactly this key, with payload 0 if it is new; the table as a map gains at most this key and loses none |
| AliasTable.AliasTable.Intern | include/libfst/fstapi.c:1495-1514 | the first chain stored under a key is remembered under its handle; later ones get that handle and change nothing |
| AliasTable.Walk | include/libfst/fstapi.c:6945-6962 | the walk ends at the first node with this key, or at the end if the chain has none, with the previous node one behind |
| Compressors.Lz4RoundTrip | include/libfst/lz4.c:927-1335 | for every nonempty input up to the size limit and every hash function, a full decode, and a partial decode with any bytes behind the block, give the input back |
| Compressors.FastLzRoundTrip | include/libfst/fastlz.c:164-547 | at both levels and for every hash function the whole input comes back; with bytes behind the block the buffer holds the input whatever is returned |
| Packing.PackBufferFits | include/libfst/fstapi.c:1539-1550 | 2n + 2 bytes hold the worst output of LZ4 and of FastLZ for every n above 32 |
| Packing.Pack | include/libfst/fstapi.c:1477-1551 | what is stored for a chain is the chain or a complete packed form of it, the flag says which, and under the fast compressors a chain of more than 32 bytes is packed exactly if the compressor makes it shorter |
| Packing.SteadyIsPacked | include/libfst/fstapi.c:1477-1551 | a chain of more than 32 equal bytes is always stored packed by the fast compressors, in fewer bytes than it has; under LZ4 in at most n/255 + 12 |
| Packing.Unpack | include/libfst/fstapi.c:5654-5683 | unpacking with bytes of the next data behind the packed chain gives the chain back for each pack type, and with FastLZ the input is left exactly if those bytes begin with a match that breaks off |
| Packing.UnpacksOnce | include/libfst/fstapi.c:1477-1551 | packed bytes determine the chain they came from |
| Packing.KeyMeans | include/libfst/fstapi.c:1495-1612 | two chains stored under one key are the same chain exactly if both are packed or neither is |
| KeyCollision.TwoChainsOneKey | include/libfst/fstapi.c:1495-1612 | two different chains that the data section may hold under one key, one of them in a complete packed form, the later one as an alias of the earlier one |
| KeyCollision.SteadyKey | include/libfst/fstapi.c:1477-1551 | under LZ4 forty equal bytes are stored packed, as these eleven bytes and no others |
| KeyCollision.TwinBytes | include/libfst/fstapi.c:1364-1472 | bytes that begin below 128 with an even number, or with an odd one and not only 0 and 1 behind it, are the chain of a signal that changes once |
| KeyCollision.KeyHasTwin | include/libfst/fstapi.c:1495-1612 | for each such key of up to 32 bytes there is another chain that is stored under it and becomes an alias of the first |
| KeyCollision.TwinOfPacked | include/libfst/fstapi.c:1477-1612 | so it is for the key the compressor yields for a given chain, with each of the pack types |
| BlockIndex.EmitIndex | include/libfst/fstapi.c:1627-1717 | the index loop writes code words that spell the entries: runs of handles without changes, signed offset differences, back references, and the repeated back reference; each run is as long as it can be, and a reference is repeated whenever it can be |
| BlockIndex.TightUnique | include/libfst/fstapi.c:1627-1717 | such a spelling is the only one, so the bytes of the index are determined by the entries |
| BlockIndex.FirstBit | include/libfst/fstapi.c:1646-1716 | the low bit of the first byte tells a run from a signed code |
| ChainTables.Tables.ReadCode | include/libfst/fstapi.c:5529-5571 | each code word is recognised by its first byte and moves the tables to the entries it spells |
| ChainTables.Tables.ResolveOne | include/libfst/fstapi.c:5616-5629 | one turn of the resolution gives a handle the pair of the handle its number refers to, if that is an earlier one, whether the number is an alias of this block or left over from another |
| ChainTables.Tables.ReadIndex | include/libfst/fstapi.c:5521-5629 | whatever is left in the tables, handles with changes get their own offset and length or those of the handle they are an alias of; all handles do exactly if no leftover refers a handle without changes to one with changes; and what the tables hold afterwards is a function of the entries and of what they held |
| ChainTables.PairExactly | include/libfst/fstapi.c:5523-5629 | a single handle gets the right offset exactly if the references that start at it do not end at a handle with changes while it has none |
| ChainTables.HarmlessExactly | include/libfst/fstapi.c:5523-5629 | all offsets are right exactly if every single leftover reference leads to a handle without changes, and exactly if each handle is kept |
| ChainTables.FirstBlockKept | include/libfst/fstapi.c:5054-5055 | nothing is left over for the first block, so no handle is led astray in it |
| ChainTables.LeftoverMayBeHarmless | include/libfst/fstapi.c:5536-5629 | two well-formed indexes between which a negative length stays behind and no offset is wrong |
| ChainTables.StaleIndexMisleads | include/libfst/fstapi.c:5536-5540 | two well-formed indexes for which a handle gets another handle's chain |
| StaleRun.RunBlocks | include/libfst/fstapi.c:1277-1807 | whatever file is written for a run of eight calls, its two blocks hold these records |
| StaleRun.RunMisleads | include/libfst/fstapi.c:5054-5629 | in every file of that run a handle without changes in the second block gets the chain of another |
| StaleRun.RunReported | include/libfst/fstapi.c:5031-6139 | iteration over every file of that run reports, for the signal without changes in the second block, a change that was never made |
| TimeTable.ReadTimes | include/libfst/fstapi.c:5202-5211 | adding up the written differences modulo 2^64 gives the time table |
| TimeTable.TickInStep | include/libfst/fstapi.c:3244-3261 | after a later time change the table has one item for each step exactly if no flush was due on an empty block |
| TimeTable.TickSorted | include/libfst/fstapi.c:3244-3261 | nondecreasing times keep the table nondecreasing |
| BlockLayout.EmitSectionHeader | include/libfst/fstapi.c:1220-1267 | the header, frame lengths and frame that open a section, the frame compressed only if that is smaller |
| BlockLayout.EmitRest | include/libfst/fstapi.c:1325-1755 | chains, index with its length, and time section with its three counts, behind the frame |
| BlockLayout.CloseSection | include/libfst/fstapi.c:1761-1784 | length, end time, memory requirement and tag are patched in, and no other byte changes |
| BlockLayout.ClosedSection | include/libfst/fstapi.c:1220-1784 | an open section with the rest behind it becomes, once closed, the bytes of the block, and everything before it is kept |
| BlockLayout.ReadTimePart | include/libfst/fstapi.c:5149-5211 | the time table of a block is found from the end of its section |
| BlockLayout.ReadFrame | include/libfst/fstapi.c:6370-6397 | the frame read from a section is the one written |
| BlockLayout.OpenBlock | include/libfst/fstapi.c:5090-5470 | from a section come back begin time, memory requirement, time table, handle count, place of the chains, index bytes and the next section |
| Frame.FrameAt | include/libfst/fstapi.c:2709-2723 | every fixed-width value stands at its own offset of the frame |
| Frame.Store | include/libfst/fstapi.c:3037-3041 | storing one value replaces that signal's value in the frame and no other |
| ChainStore.StoreOne | include/libfst/fstapi.c:1475-1612 | a chain is written and its handle gets the offset, or the same key was stored before and the handle becomes an alias of an earlier one; the data still holds every chain stored so far |
| ChainStore.Checkpoint | include/libfst/fstapi.c:1349-1414 | after a handle is passed the frame has its last value of the block |
| ChainStore.StoreChains | include/libfst/fstapi.c:1332-1619 | after the loop the words, the data and the frame hold every handle's chain and last value, no key is stored twice, and the memory requirement is the sum of the chain lengths |
| WriterSpec.StoryIsTrace | include/libfst/fstapi.c:2929-3263 | the times in the file are the times of the calls, for every run in which no flush comes due on an empty block |
| WriterSpec.InStepExactly | include/libfst/fstapi.c:3244-3261 | at every point of every run, the block's table has one item for each step, the last one the current time, exactly unless a flush came due on an empty block since the last block was closed |
| WriterSpec.ClosedExactly | include/libfst/fstapi.c:1916-3261 | a time change closes the block, with its table and its records, exactly if the log has an entry and has the break size or a flush is noted; a flush is noted from the third time item on |
| WriterSpec.RoomAfterTime | include/libfst/fstapi.c:3228-3261 | after every time change of every run the log is below the break size or has no entry, and no flush is noted |
| WriterSpec.ToldExample | include/libfst/fstapi.c:2929-3263 | which calls of a run with a bit and a variable-length signal count, and with which times |
| Timeliness.RightExactly | include/libfst/fstapi.c:3244-3261 | at every point of every run, a change made now is stored under the current time exactly if as many of the latest time items of the block as it has seen empty flushes add up to the times of those flushes modulo 2^64 |
| Timeliness.OneEmptyFlush | include/libfst/fstapi.c:3244-3261 | after one empty flush that is so exactly while the latest time difference equals the time of the flush modulo 2^64 |
| Timeliness.EmptyFlushTick | include/libfst/fstapi.c:3244-3261 | the time change that meets the first empty flush is stored right exactly if it doubles the time modulo 2^64 |
| Timeliness.EmittedExactly | include/libfst/fstapi.c:2929-3263 | for every run and signal, the changes stored are those of the calls exactly if each was made while times were right |
| Timeliness.TraceExactly | include/libfst/fstapi.c:2929-3263 | for every run, the whole trace stored is that of the calls exactly if that is so for every signal |
| Traces.SeenAsGiven | include/libfst/fstapi.c:1364-1379 | a signal that is not one bit wide, or whose values are all among 0 1 x z h u w l -, has the changes of the calls themselves as its history, without any folding |
| Timeliness.TicksClimb | include/libfst/fstapi.c:3211-3263 | if times go forward in the calls, the times of the ticks go forward within each block and from block to block |
| Timeliness.EmptyFlushShiftsTime | include/libfst/fstapi.c:3250-3251 | a run of six calls the API allows whose only change is stored under time 14, so it is right exactly if it was made at 14 |
| FstWriter.Writer.constructor | include/libfst/fstapi.c:1155-1215 | a new writer has an empty history and the given initial values |
| FstWriter.Writer.EmitValueChange | include/libfst/fstapi.c:2929-3044 | a fixed-width change extends the history by one change at the current step, or replaces the initial value before the first time change; unknown handles and variable-length signals are left alone |
| FstWriter.Writer.EmitVariableLengthValueChange | include/libfst/fstapi.c:3168-3208 | the same for signals of variable length; before the first time change nothing is kept |
| FstWriter.Writer.EmitTimeChange | include/libfst/fstapi.c:3211-3263 | a time change moves the clock as the state machine says and flushes when due; a flushed block has the records, the table and the begin and end times of the one just closed, and the history stays complete |
| FstWriter.Writer.FlushContext | include/libfst/fstapi.c:1916-1926 | a flush is noted only from the third time item of the block on |
| FstWriter.Writer.FlushContextPrivate | include/libfst/fstapi.c:1277-1807 | a block without changes is left alone; else one more block holds all logged changes, the log is empty, and the frame of the next section is the checkpoint |
| FstWriter.Writer.Close | include/libfst/fstapi.c:1944-1984 | after closing, the blocks hold the whole history; an open section without changes is cut off behind the last block |
| FstWriter.Writer.MockCalls | include/libfst/fstapi.c:1962-1971 | when time never advanced, closing makes a time change to 0 and a value change for each handle with the value in the frame |
| FstWriter.TraceInvFlush | include/libfst/fstapi.c:1332-1807 | closing a block divides the history between finished blocks and the new, empty one without loss |
| FstWriter.LatestInvFlush | include/libfst/fstapi.c:1349-1414 | the frame after a flush has every fixed-width signal's last value over the whole history |
| FstWriter.SomeChain | include/libfst/fstapi.c:1332-1612 | a signal with changes has a chain, or is an alias of an earlier one, so the index of a flushed block is never empty |
| Traces.RoomFromWeights | include/libfst/fstapi.c:1320-1475 | all chains of a block together take no more room than its log |
| Buckets.BucketLists.File | include/libfst/fstapi.c:5732-5733 | a signal is put at the head of the list of one time step; all lists stay finite and disjoint |
| Buckets.BucketLists.Take | include/libfst/fstapi.c:6093-6094 | the head of a list is taken off, and nothing else moves |
| Interleave.Interleaver.Load | include/libfst/fstapi.c:5642-5735 | a chain is filed under the step of its first change, and refused if that is past the time table |
| Interleave.Interleaver.ProcessHead | include/libfst/fstapi.c:5778-6109 | one turn reports one change of one signal and files the signal under its next change, exactly while it has bytes left |
| Interleave.Interleaver.Run | include/libfst/fstapi.c:5740-6110 | the loops end, and report every change of every loaded chain once, in the order of its chain and of time |
| FstReader.AliasMeans | include/libfst/fstapi.c:5616-5629 | a handle's resolved chain is its own exactly if it and its target are stored packed, or neither is |
| FstReader.PairOfSource | include/libfst/fstapi.c:5523-5629 | the offset and length of a handle are those of the handle its references end at, or its alias names |
| FstReader.SeesOwn | include/libfst/fstapi.c:5523-5707 | a handle sees its own records exactly if no leftover leads it astray and it and its alias are both packed or both not |
| FstReader.SeenFacts | include/libfst/fstapi.c:5614-5642 | each handle finds, at its offset, a stored form of the chain it sees, which is that of the handle the bytes belong to |
| FstReader.ReadChain | include/libfst/fstapi.c:5654-5707 | the chain comes back from its stored form, although the length passed to the decompressor is too long by the header; and whether FastLZ then leaves its input depends on the bytes behind the stored form |
| FstReader.NextChainDecides | include/libfst/fstapi.c:5654-5679 | for a packed FastLZ chain of less than 128 bytes with another one behind it, the input is left exactly if that one is packed |
| FstReader.LoadChains | include/libfst/fstapi.c:5638-5736 | exactly the selected handles with bytes are loaded, each with the records it sees |
| FstReader.ReadBlock | include/libfst/fstapi.c:5084-6114 | whatever earlier blocks left, the callbacks of one block are exactly the changes the selected signals see in it, and go forward in time where the table agrees with times that do |
| FstReader.IterBlocks | include/libfst/fstapi.c:5031-6139 | over all sections of a file, the callbacks are signal by signal the changes seen in the blocks; and they go forward in time if the tables agree, where selected signals change, with times that do |
| SeenChains.SeenExactly | include/libfst/fstapi.c:5523-6110 | a selected handle is reported with its own steps in a block exactly if no leftover leads it astray and its alias is not mixed up |
| FstReader.StampedChanges | include/libfst/fstapi.c:5740-6110 | per signal, the callbacks of a block are its steps with the times of the table |
| FstReader.BlockAt | include/libfst/fstapi.c:5084-5112 | where each block lies in a file, whatever its prefix and tail |
| FstTrace.Replay | include/libfst/fstapi.c:2929-3263 | any run of allowed calls leaves the writer in the state the state machine computes, with every finished block and the open one in agreement with the times of the calls |
| FstTrace.WriteTrace | include/libfst/fstapi.c:1944-3263 | for every run of allowed calls, closed before or after the first time change, the blocks hold, signal by signal, exactly the changes that count, and are exactly those the calls lead to, each with its time table and records; every frame holds the last values before its block; headers and tables have the times of the calls |
| FstTrace.MockTold | include/libfst/fstapi.c:1962-1971 | a trace closed before any time change says of each fixed-width signal that it has its latest value at time 0, and of others nothing |
| FstTrace.ReadTrace | include/libfst/fstapi.c:5031-6139 | each selected signal is reported with exactly the changes stored, in order, each once; they are those of the calls, times included, exactly if the signal is punctual, and are then the very values given if these have codes; and if all selected signals are punctual and time went forward, all reports together go forward in time |
| ValueLookup.ScanFindsLast | include/libfst/fstapi.c:6606-6739 | a scan from the start stops at the last change at or before the time |
| ValueLookup.QueryRight | include/libfst/fstapi.c:6606-6739 | one query with a cached position answers as a scan from the start exactly if the position is not stale for it |
| ValueLookup.StaleAnswer | include/libfst/fstapi.c:6606-6629 | three queries on one chain, the last of which gets the frame's value instead of the change's |
| ValueLookup.ForwardQueries | include/libfst/fstapi.c:6606-6739 | every query of a series that does not go back in time is answered as by a scan from the start |
| ValueLookup.Cursor.Scan | include/libfst/fstapi.c:6626-6700 | the scan over the bytes passes exactly the records at or before the time and remembers the last of them |
| ValueLookup.Cursor.ValueAt | include/libfst/fstapi.c:6606-6739 | the value returned is that of the record the query stands for, or the frame's, and the cache moves as in the query |
| LookupTrace.LookupIsHistory | include/libfst/fstapi.c:6146-6739 | a lookup in one block, from its frame and its chain, gives the value the signal has in the whole history at that time |
| LookupTrace.FrameValue | include/libfst/fstapi.c:1220-1267 | the frame of a block holds each fixed-width signal's last value before the block |
| LookupTrace.PastSplit | include/libfst/fstapi.c:5031-6139 | a signal's history is that of the blocks before, then that of one block, then that of the blocks after it |
| LookupTrace.LookupUpTo | include/libfst/fstapi.c:6146-6739 | whatever comes later, a lookup in one block gives the value after the changes up to that block that are not later than the time |
| BlockSearch.NoGaps | include/libfst/fstapi.c:1240-1242 | the headers of a file cover exactly the times from the first block's begin to the last block's end |
| BlockSearch.FindBlock | include/libfst/fstapi.c:6243-6296 | the search ends with the first block that covers the time, or with nothing if none does; but at the end of a block that is not the end of the trace with type 0 and a length more than 256 times too large |
| BlockSearch.Misread | include/libfst/fstapi.c:6269-6288 | what the second reading of a header takes for type and length |
| TraceLookup.LookupIsTold | include/libfst/fstapi.c:6193-6739 | for every run in which time goes forward and every punctual signal, the scan of the chain in any block that covers the time finds the value the calls gave the signal exactly if later blocks do not move it at that time; before the end of the block and in the last one they do not, and at the end of the trace that is a matter of the last later change |
| ValueQueries.ValueReader.LoadBlock | include/libfst/fstapi.c:6298-6540 | after loading, the fields are those of the block, and the tables those a first block has |
| ValueQueries.ValueReader.Process | include/libfst/fstapi.c:6541-6739 | the chain is kept for the signal asked for last and loaded anew for another one; the value is that of the record the query stands for, or the frame's, and signals without changes leave the position alone |
| ValueQueries.ValueReader.ValueFromHandleAtTime | include/libfst/fstapi.c:6193-6739 | one query: the loaded block answers if it covers the time, else the first one that does, and none outside the blocks and for handles that do not exist or have no width; the end of a block that is not loaded is lost before the end of the trace; the value is that of the record the query on the remembered position stands for, and a newly loaded block starts without a position |
| ValueQueries.ForwardLookups | include/libfst/fstapi.c:6193-6739 | from the bytes of a file to the values of the calls, for any series of queries of any signals in which time does not go back: each answer is that of the loaded block or of the first that covers the time, and is the value the calls gave the signal before the end of that block, and at its end exactly if later blocks do not move it there; the series ends early only at a lost time |
| LookupRuns.BoundaryTimeLost | include/libfst/fstapi.c:6269-6288 | a run of six calls in whose every file the value at time 5 is lost, though the calls gave the signal one |
| LookupRuns.EndTimeMissed | include/libfst/fstapi.c:6263-6290 | a run of seven calls in whose every file the lookup at the end of the trace gives the value before the last change |
| Hierarchy.HierWriter.CreateVar | include/libfst/fstapi.c:2632-2729 | the record with real and string lengths and impossible aliases normalised is appended, a variable that is no alias gets the next handle, and the length counter stays exact |
| Hierarchy.HierWriter.SetScope | include/libfst/fstapi.c:2732-2758 | one scope record is appended, its type normalised, and the length counter stays exact |
| Hierarchy.HierWriter.SetAttrBegin | include/libfst/fstapi.c:2773-2806 | one attribute record is appended with type and subtype normalised, and the length counter stays exact |
| Hierarchy.HierReader.ReadName | include/libfst/fstapi.c:4149-4158 | a name is cut to the size of its buffer and the reader stands behind its terminator |
| Hierarchy.HierReader.IterateHier | include/libfst/fstapi.c:4112-4289 | the next record gives the normalised entry with the writer's handle; nothing is returned at the end and for types behind 29 |
| Hierarchy.WriteAll | include/libfst/fstapi.c:2632-2815 | the section is the records of the calls, and the counted length is its length |
| Hierarchy.ReadAll | include/libfst/fstapi.c:4112-4289 | reading until nothing comes gives the entries of the calls up to the first type the reader does not know |
| Hierarchy.RoundTrip | include/libfst/fstapi.c:2632-4289 | writing and reading back gives the normalised entries with the writer's numbering, up to the first unknown type |
| Hierarchy.AllComeBack | include/libfst/fstapi.c:4205-4289 | all entries come back exactly if no variable has a FIRRTL type |
| Hierarchy.ScopeSeen | include/libfst/fstapi.c:2732-4170 | scope types 0 to 21 come back as they are and others as 0, names up to 512 bytes as they are |
| Hierarchy.AttrSeen | include/libfst/fstapi.c:2773-4196 | attribute types 0 to 3 and subtypes in their ranges come back as they are, other types as 0 with subtype 8 |
| Hierarchy.VarSeen | include/libfst/fstapi.c:2632-4289 | a variable keeps type, direction, name and length, reals have 8 bytes and strings none, and a port of 3n + 2 bytes comes back with n bits |
| Hierarchy.TypesKnown | include/libfst/fstapi.c:4212-4289 | the reader knows the types of variables from 0 to 29 |
| Hierarchy.FirrtlTypeStops | include/libfst/fstapi.c:4205-4289 | a hierarchy of three calls of which one entry comes back |
| Hierarchy.HandlesNumbered | include/libfst/fstapi.c:2684-2727 | variables that are no aliases are numbered 1, 2, 3 and so on without gaps |
| Hierarchy.AliasLeadsBack | include/libfst/fstapi.c:2667-2727 | every alias entry names an earlier variable that owns its handle |
| Escape.ConvertedLen | include/libfst/fstapi.c:7010-7044 | the length computed in advance is that of the escaped string |
| Escape.BinToEsc | include/libfst/fstapi.c:7047-7086 | the escaped string is written at the place given and no other byte changes |
| Escape.EscToBin | include/libfst/fstapi.c:7092-7147 | undoing escapes in place, for every input whose escapes lie in the buffer, gives the unescaped string and changes nothing else |
| Escape.UnescapeEscaped | include/libfst/fstapi.c:7047-7147 | unescaping an escaped string gives it back, for all bytes |
| EnumTable.TotalLen | include/libfst/fstapi.c:2847-2864 | the total computed in advance is that of the padded, escaped fields |
| EnumTable.CreateEnumTable | include/libfst/fstapi.c:2821-2911 | the attribute string has exactly the computed size and is name, count, literals and padded values |
| EnumTable.TakeField | include/libfst/fstapi.c:7180-7200 | one field is terminated and unescaped where it stands, without harm to the fields before and the rest behind |
| EnumTable.ExtractEnumTable | include/libfst/fstapi.c:7150-7207 | a table comes out exactly if the number of fields fits the count; then each pointer leads to its own string and terminator |
| EnumTable.TableRoundTrip | include/libfst/fstapi.c:2821-7207 | creating and extracting gives name, literals and zero-padded values back, the name exactly if it has no space |
| EnumTable.PaddingIsZeros | include/libfst/fstapi.c:2883-2896 | a value gets exactly the missing number of zero digits in front |
| Lz77.PeriodicIsCopy | include/libfst/lz4.c:1919-1923 | bytes that repeat with the offset are the bytes of the overlapping copy |
| Lz77.CopyCopy | include/libfst/lz4.c:1919-1923 | two matches with one offset, one after the other, are one match |
| Lz77.MultipleContinues | include/libfst/lz4.c:496-513 | copying from a multiple of the offset away continues the match |
| MatchCopy.CopyBytewise | include/libfst/lz4.c:1919-1923 | the plain loop is the overlapping copy |
| MatchCopy.TablesAreMultiples | include/libfst/lz4.c:471-506 | the distances set up by `inc32table` and `dec64table` are multiples of the offset, at least 8 in the end, and enough bytes are laid down before each is used |
| MatchCopy.WildCopy8 | include/libfst/lz4.c:461-469 | copying eight bytes at a time from at least eight away leaves the bytes of the overlapping copy |
| MatchCopy.WildCopy32 | include/libfst/lz4.c:518-526 | two times sixteen bytes at a time from at least sixteen away leave the same bytes |
| MatchCopy.CopyShort | include/libfst/lz4.c:496-506 | the first eight bytes for every offset below eight, and a source moved to a distance from which block copies go on |
| MatchCopy.CopyUsingOffsetBase | include/libfst/lz4.c:492-513 | for every offset and length the bytes kept are those of the overlapping copy |
| MatchCopy.CopyUsingOffset | include/libfst/lz4.c:531-569 | the same for the variant that stamps an eight-byte pattern |
| Lz4Format.TrailingBytes | include/libfst/lz4.c:2241-2296 | what a full decode accepts, a partial decode accepts with any bytes behind it and the same result |
| Lz4Format.DecodesOnce | include/libfst/lz4.c:1837-1934 | a block has at most one full decoding, whatever size is asked for |
| Lz4Format.SequenceStep | include/libfst/lz4.c:1857-1931 | a complete sequence followed by enough bytes is one step of the reference decoder |
| Lz4Format.LastStep | include/libfst/lz4.c:1860-1876 | the last sequence, of literals only, ends the decode |
| Lz4Decode.ReadVariableLength | include/libfst/lz4.c:1946-1982 | the length read is the sum of the extension bytes, and an extension that runs past the limit is refused |
| Lz4Decode.SafeToken | include/libfst/lz4.c:2177-2235 | one token of the safe loop, with the two-stage shortcut, keeps what is still to decode |
| Lz4Decode.SafeLiterals | include/libfst/lz4.c:2235-2302 | literals near the ends keep what is still to decode, and a block ends only as the format allows |
| Lz4Decode.SafeMatch | include/libfst/lz4.c:2314-2399 | a match near the end leaves exactly the bytes of the overlapping copy |
| Lz4Decode.FastLoop | include/libfst/lz4.c:2052-2172 | the fast loop with its over-long copies keeps what is still to decode |
| Lz4Decode.Decompress | include/libfst/lz4.c:1990-2405 | for every input, every access stays inside the buffers; whatever the strict reference decodes into exactly the buffer's size is decoded to it; whatever is decoded at all is what the lenient reference decodes, and input that it refuses is refused |
| Lz4Lenient.StrictIsLenient | include/libfst/lz4.c:1837-1934 | what the strict reference decodes, the lenient one decodes to the same bytes, for full and partial decodes |
| Lz4Compress.FindMatch | include/libfst/lz4.c:1016-1098 | the positions probed are those of the accelerating steps; the search ends at the first whose table entry is within the largest distance and agrees in four bytes, with that entry, and without a match only if the next step would leave the searched part |
| Lz4Compress.CatchUp | include/libfst/lz4.c:1101-1106 | a match is extended backwards over equal bytes that are not encoded yet, as far as there are any |
| Lz4Compress.Count | include/libfst/lz4.c:676-700 | the count is the exact length of the common run up to the limit |
| Lz4Compress.EmitSequence | include/libfst/lz4.c:1108-1222 | literals, offset and match length written decode to the text up to the end of the match, which is as long as it can be; the bytes are those of the sequence and no others |
| Lz4Compress.NextMatches | include/libfst/lz4.c:1232-1296 | immediate next matches keep the output decodable, and the loop stops only near the end or where the table has no match |
| Lz4Compress.CompressBody | include/libfst/lz4.c:1010-1298 | the main loop stops with at least the last literals left, and only near the end or after a fruitless search; what is written decodes to the text before them; for equal bytes it is one sequence |
| Lz4Compress.Compress | include/libfst/lz4.c:927-1335 | the output decodes to the input and is at most n + n/255 + 2 bytes, for every hash function and acceleration; for more than 12 equal bytes it is exactly one literal, one match and five literals |
| Lz4Compress.SteadyBlockSize | include/libfst/lz4.c:1010-1335 | those are at most n/255 + 12 bytes, and fewer than n for every n above 32 |
| FastLzFormat.InstrStable | include/libfst/fastlz.c:427-541 | a complete instruction is read the same when bytes follow |
| FastLzFormat.CopyReads | include/libfst/fastlz.c:433-461 | the operands read from an encoded match are its distance and length at both levels, far distances and length chains included |
| FastLzFormat.MarkerIgnored | include/libfst/fastlz.c:410-425 | the level marker does not change what the instructions mean |
| FastLzDecode.CopyWords | include/libfst/fastlz.c:492-518 | three bytes, one to make the rest even, and then two at a time leave the bytes of the overlapping copy |
| FastLzDecode.DecompressLevel | include/libfst/fastlz.c:418-547 | a size is returned exactly when the reference decodes the whole input into the buffer, and the input is left exactly when decoding gets to a match whose operands run out; a block that fills the buffer is there whatever follows it, and then only the first instruction behind it decides |
| FastLzDecode.Decompress | include/libfst/fastlz.c:138-150 | the level comes from the first byte, an unknown one is refused and leaves the buffer alone; otherwise the same |
| FastLzDecode.OverBehindBlock | include/libfst/fastlz.c:418-547 | behind a block that fills the buffer the input is left exactly if the bytes there begin with a match whose operands run out |
| FastLzDecode.OneByteBehind | include/libfst/fastlz.c:433-461 | a block of two bytes that is decoded without leaving the input before one byte and not before another |
| FastLzCompress.FindMatch | include/libfst/fastlz.c:209-257 | a match is found exactly if a run begins there at level 2 or the latest position with the same hash is within reach and agrees in three bytes, or in five if it is far, and repeats at its distance for at least the length claimed; the table then has this position |
| FastLzCompress.ExtendRun | include/libfst/fastlz.c:265-271 | a run is extended exactly over equal bytes, up to the end or the first other byte |
| FastLzCompress.ExtendCopy | include/libfst/fastlz.c:272-287 | other matches are extended exactly over equal bytes, although eight comparisons are made without looking at the bound |
| FastLzCompress.EmitMatch | include/libfst/fastlz.c:300-367 | the instructions written, split at level 1 and chained at level 2, decode to the matched text |
| FastLzCompress.Flush | include/libfst/fastlz.c:289-295 | the count byte of a literal group is patched, or taken back if the group is empty |
| FastLzCompress.CompressLevel | include/libfst/fastlz.c:164-416 | the output decodes, at the level its first byte names, to the input, and is at most n + n/32 + 1 bytes; of more than 14 equal bytes at most 12 + 3 n/255 |
| FastLzCompress.Compress | include/libfst/fastlz.c:128-136 | the same, at level 1 below 65536 bytes and at level 2 from there on |
| ByteExamples.OneBitRecords | include/libfst/fstapi.c:1364-1379 | the bytes of one-bit records for each code |
| ByteExamples.WideRecords | include/libfst/fstapi.c:1380-1472 | the bytes of packed, plain and variable-length records |
| ByteExamples.LogEntries | include/libfst/fstapi.c:860-912 | the bytes of entries of the log |
| ByteExamples.IndexBytes | include/libfst/fstapi.c:1627-1717 | the bytes of an index with each kind of code word |
| ByteExamples.TimeItems | include/libfst/fstapi.c:3244-3261 | the bytes of a time table |
| ByteExamples.PackTypes | include/libfst/fstapi.c:1326 | the letter of each pack type |
| ByteExamples.StoredChains | include/libfst/fstapi.c:1555-1612 | the bytes stored for a raw and a packed chain |
| ByteExamples.SectionExample | include/libfst/fstapi.c:1220-1784 | every byte of a section |
| ByteExamples.HierarchyExample | include/libfst/fstapi.c:2632-2771 | every byte of a hierarchy with a scope, a variable and an alias of it |
| ByteExamples.EscapedExample | include/libfst/fstapi.c:7047-7086 | the escapes of printable and other bytes |
| ByteExamples.EscapeLetters | include/libfst/fstapi.c:7047-7070 | the bytes that have a letter |
| ByteExamples.EnumExample | include/libfst/fstapi.c:2821-2898 | the attribute string of a small table |
| ByteExamples.Lz4Example | include/libfst/lz4.c:1837-1934 | what an LZ4 block with a long overlapping match decodes to |
| ByteExamples.FastLzExample | include/libfst/fastlz.c:427-541 | what literals and near matches mean at level 1, and the level marker |
| ByteExamples.FastLzLevel2 | include/libfst/fastlz.c:427-541 | what long and far matches mean at level 2 |
| FirChunks.CountLines | parser/firParser.cpp:77 | the loop over `strchr` adds exactly the line ends of the C string |
| FirChunks.CreateTasks | parser/firParser.cpp:58-84 | the text is cut in place into C strings, and each task has offset, length with terminator, line and number of its chunk |
| FirChunks.ChunksAreText | parser/firParser.cpp:58-84 | the chunks put together with line ends are the text |
| FirChunks.StartsExactly | parser/firParser.cpp:64-73 | a module starts exactly where a line begins with two blanks, the word and a blank |
| FirChunks.ChunkModules | parser/firParser.cpp:64-73 | every chunk but the last has exactly five module starts, the last one to five, and they are the next ones of the text |
| FirChunks.TaskReadsChunk | parser/firParser.cpp:36-39 | the C string at a task's offset is its chunk, and the recorded line is one more than the line ends before it |
| FirPool.MarkersBelow | parser/firParser.cpp:88-94 | any sorted order puts all exit markers below all tasks |
| FirPool.StepKeeps | parser/firParser.cpp:23-52 | every step of every thread keeps the invariant and uses up one of the steps to come |
| FirPool.NeverWaits | parser/firParser.cpp:25-27 | a thread that has not returned never finds the queue empty |
| FirPool.Finishes | parser/firParser.cpp:42-46 | a list is written once: it was missing before the step that writes it |
| FirPool.AlongRun | parser/firParser.cpp:23-52 | at every point of every run a task has been parsed once if its list is there and not at all otherwise, and a thread has taken one marker if it has returned and none otherwise |
| FirPool.EveryRunEnds | parser/firParser.cpp:23-105 | every run has at most 2 tasks + threads steps; one that cannot go on has all threads returned, an empty queue, each task parsed once and each list right |
| FirPool.Pool.Turn | parser/firParser.cpp:23-52 | one turn of a thread is one step of the state machine |
| FirPool.RunThreads | parser/firParser.cpp:96-105 | under any choice of the next thread the loop ends with an empty queue and every list |
| FirPool.ParseFir | parser/firParser.cpp:54-124 | the result is the parses of the chunks, with their true lines, in the order of the text, whatever the schedule and the order of equal lengths |
| SplitNode.SliceIsArithmetic | include/splitNode.h:40-80 | bits hi to lo of a number are floor(v / 2^lo) mod 2^(hi - lo + 1) |
| SplitNode.NumConcat | include/splitNode.h:87-92 | concatenation is multiplication by a power of two and addition |
| SplitNode.SelectMeans | include/splitNode.h:62-80 | selecting bits of a node slice, a constant or a gap selects them from the number it stands for |
| SplitNode.SelectIsSlice | include/splitNode.h:62-72 | up to one position past the width the selection is right for all node values exactly if it is inside, or the element is no node slice |
| SplitNode.MergeMeans | include/splitNode.h:81-93 | merging adjacent slices of a node, or two constants, is concatenation |
| NodeComponents.NodeElement.UpdateWidth | include/splitNode.h:40-49 | shift and mask leave exactly the bits hi to lo of a constant |
| NodeComponents.NodeElement.GetBits | include/splitNode.h:62-80 | a new object that stands for the selected bits; the old one is unchanged |
| NodeComponents.NodeElement.Merge | include/splitNode.h:81-93 | the object stands for the merged element; merged with itself, for its value doubled after the shift |
| NodeComponents.SelfMergeMeans | include/splitNode.h:88-91 | an element merged with itself is its own concatenation exactly if it is zero |
| NodeComponents.Select | include/splitNode.h:144-189 | the loop with its early stop and its zero element picks new objects for exactly the bits asked for |
| NodeComponents.SelectAllMeans | include/splitNode.h:144-195 | selecting from a component is selecting from the joined bits of its elements, zero past the width |
| NodeComponents.SelectAllIsArithmetic | include/splitNode.h:144-195 | the number selected is floor(v / 2^lo) mod 2^(hi - lo + 1) |
| NodeComponents.AppendMeans | include/splitNode.h:119-133 | putting two components together concatenates their bits, merged in the middle or not |
| NodeComponents.SquashMeans | include/splitNode.h:254-272 | merging neighbours changes neither bits nor width |
| NodeComponents.SquashMerges | include/splitNode.h:254-272 | if two elements can only be merged when they are adjacent, and what can be merged with a merged element can be merged with its first part, no two neighbours of the result can be merged |
| NodeComponents.SquashedExactly | include/splitNode.h:254-272 | the list stays as it is exactly if no two neighbours can be merged, and gets shorter otherwise |
| NodeComponents.HalvesJoin | include/splitNode.h:119-133 | two halves of a node become one element, by merging neighbours and by putting components together |
| NodeComponents.AppendedSeam | include/splitNode.h:119-133 | two components put together have one element less than both exactly if the seam can be merged |
| NodeComponents.NodeComponent.GetElementBits | include/splitNode.h:144-166 | the picked elements are added to the component, and its width grows by hi - lo + 1 |
| NodeComponents.NodeComponent.GetBits | include/splitNode.h:190-195 | a new component of width hi - lo + 1 with the selected elements in both lists |
| NodeComponents.NodeComponent.Merge | include/splitNode.h:119-133 | both lists are joined, the width is the sum, and the component stays well formed |
| NodeComponents.NodeComponent.MergeNeighbor | include/splitNode.h:254-272 | both lists are merged in place, without change of width, and no two neighbours of either can be merged afterwards |
| DecoupledGcdModel.GcdIsGcd | firrtl_fst_demo/src/main/scala/gcd/DecoupledGCD.scala:41-53 | repeated subtraction ends at the greatest common divisor |
| DecoupledGcdModel.DecoupledGcd.Clock | firrtl_fst_demo/src/main/scala/gcd/DecoupledGCD.scala:37-72 | in every reachable state a valid output carries the gcd of the accepted pair and the pair |
| DecoupledGcdModel.OneResultPerPair | firrtl_fst_demo/src/main/scala/gcd/DecoupledGCD.scala:37-72 | under all stalls on both sides the outputs handed over are those of the accepted pairs, in order, at most one pair ahead |
| DecoupledGcdModel.ValidInTime | firrtl_fst_demo/src/main/scala/gcd/DecoupledGCD.scala:41-62 | a result becomes valid after exactly one cycle more than the subtractions needed, at most x + y + 1 |
| DecoupledGcdModel.ValidStays | firrtl_fst_demo/src/main/scala/gcd/DecoupledGCD.scala:47-62 | a valid result stays until it is taken |

## Left out

- File handles, seeks, temporary files, memory mapping and allocation failures: files and buffers are byte sequences.
- zlib: a pair of functions of which only the round trip is assumed (`Packing.Lawful`).
- Hash functions of the compressors and of the alias table: arbitrary functions, so every result holds for any of them.
- Real values, endianness of doubles, and VCD text output: formatting with little logic.
- Block types other than the one with dynamic aliases of the second kind, which is what the writer produces.
- The dump size limit and time-limited iteration.
- Initial frame callbacks of `fstReaderIterBlocks2`: the iteration results speak of chain changes only.
- The number of handles is fixed once the first change is emitted.
- The parallel flush and the removal of duplicate changes: not in the build.
- LZ4 with dictionaries, streaming, limited destination sizes and position tables of pointers: not used by the trace files.
- Pointer overflow tests in the LZ4 decoder: positions are numbers without bound.
- `arg_from_name`, geometry, position and value files of `fstWriterCreateVar`, and the compression of the hierarchy section.
- Count of an enumeration table above 2^31 - 1, where `atoi` overflows.
- `Segments`, the sets of referred nodes, `dup`, `assignSegEq`, `assignAllEq` and the printing in `splitNode.h`; the loops over referred nodes work on copies and have no effect on an element.
- `compMergable` has no body in the repository: it is any function that accepts only adjacent slices of a node or two constants.
- The grammar, the scanner and syntax errors of the parser, and the width of line numbers.
- Widths of the registers in `DecoupledGCD.scala`: numbers without bound.
- FstTrace.WriteTrace: asks that every call leaves the log below the size LZ4 accepts and every signal fewer than 2^28 steps since its last change, because the formats are 32 bits wide.
- FstTrace.ReadTrace: asks, of the selected handles only, that none reads a raw chain as a packed one or the reverse and that none is led to another one's chain by what earlier blocks left behind, because the code is wrong without; the exact conditions are listed above. Sizes that are stored in 64 bits have to fit them.
- FstReader.IterBlocks: asks that the bytes a handle is led to can be read with that handle's width, and that all chains seen fit the buffer the block asks for with its 66 spare bytes.
- ValueQueries.ForwardLookups: asks the same as `ReadTrace` about packed chains, and that the signals are punctual. What the source reads after it misread a header, where the series ends, is not modelled.
- FastLzDecode.Decompress: stops where the source reads behind its input; what it then reads there is not modelled.
- Lz4Decode.Decompress: between what the strict reference decodes and what the lenient one refuses, the source accepts or refuses by how near the ends are; for a match from zero bytes back, which repeats what the buffer held before, only the bound of the count is promised.
- Lz4Decode.SafeMatch: the test for the last five literals comes before the first eight-byte copy, where the source has it after.
- Escape.EscToBin: asks that no escape runs past the end of the buffer, which the source reads without looking.
- Hierarchy.HierReader.IterateHier: asks for a section as the writer leaves it; on a file cut off inside a name the source does not stop.
- NodeComponents.Select: one loop for `getElementBits` and `getDirectBits`, which differ only in the list they work on.
- NodeComponents.NodeComponent.Merge: asks that the two components share no element object; sharing afterwards is possible, as in the source.
- FirPool.Pool.Turn: parsing a chunk and storing its list is one step, as no other thread reads or writes that entry.
