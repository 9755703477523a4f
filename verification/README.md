# Two FPGA accelerators, modelled and proved in Dafny

This project models the hard core of two accelerators and proves what they are for.

- **TPC-H Query 6 scan and aggregate** (`xql6`, `xql6p2p`). A host driver repacks PostgreSQL heap tuples
  into pages and keeps blocks in flight in a ring of buffers; an FPGA kernel deals the pages to processing
  units, each a network of stages joined by FIFOs; a software emulation computes the same by reading words;
  a peer-to-peer variant sends raw heap pages and extracts the tuples in the kernel. Proved: all of them
  return the query's sum, and exactly when they do not.
- **Interleaved gather** (`omxgather`). `out[i] = A[in[i]]` by up to 16 worker streams, over a table spread
  across memory banks, with results returned through two buffers and callbacks. Proved: every schedule of
  the network and every interleaving of kernels, read-backs and callbacks gives that result, and what
  waiting for the command queue alone does not guarantee.

`dafny verify dfyconfig.toml` checks everything.

## How it is built

| files | content |
|---|---|
| `Machine`, `Flatten` | wrapping 16-, 32- and 64-bit arithmetic; single steps of non-linear arithmetic; rows laid end to end |
| `Numeric`, `Calendar` | the base-10000 numeric decoder and the Julian day routines, against independent definitions of a stored number and of the calendar |
| `Lineitem`, `Layout`, `Tuples` | how tuples are read; how they are written; that reading undoes writing; what Query 6 makes of them |
| `Streams`, `TupleParser`, `Kernel`, `FlowWrap` | the kernel's stages as methods over FIFO objects, in the sources' loop structure |
| `SwEmu` | the word-buffered reader and the emulation |
| `NumericLayout`, `HeapLayout`, `Query6` | writing numbers, heap pages and rows byte by byte; the query on rows as the benchmark defines it; that the reading side undoes the writing side and computes the query |
| `HeapPage`, `Packer` | heap pages, and the resumable packer over them |
| `Ring`, `Drivers`, `HwDrivers`, `P2PDriver` | the buffer ring with an out-of-order device, and the three drivers |
| `Agreement`, `SampleRelation` | the drivers on known tuples; relations on which one of them fails |
| `Runs`, `Kahn` | schedules of concurrent systems: when one run decides all runs; networks of processes with bounded FIFOs |
| `PageParse`, `PageNetwork`, `FlowNetwork` | one processing unit, byte by byte, as such a network; the whole kernel on one block, built from them |
| `Interleave`, `GatherNetwork`, `Gather` | stream layouts; the gather kernel as a network, and stage by stage |
| `Banks`, `PingPong` | bank layout of table and indices, and setting it up; the output side of the gather driver |
| `GatherAgreement` | networks of kernels inside the driver with callbacks: the gather, end to end |

Each stage that works step by step is a method or a class with the source's own state, proved against a
function of its inputs: `Lineitem.SumRows` for what a page is worth, `HeapPage.Fit` for what fits a page,
`Interleave.Share` for what a stream holds. The kernel and the emulation are proved against the same
function, which is what makes them equal. The reading side (`Lineitem`, `HeapPage`, `Numeric`) and the
writing side are defined separately. What is written is given outright, at literal places and without the
reading side's tables: numbers from weight, sign and digits (`NumericLayout`), rows column by column and
heap pages line pointer by line pointer (`Query6`, `HeapLayout`). `Query6.Answer` is clause 2.4.6 of TPC
Benchmark H on such rows, in real numbers and calendar dates, and `Agreement.AnswerThreeTimes` connects it
to what the three drivers return.

Stages are modelled twice where it matters. `Kernel`, `FlowWrap` and `Gather` run them one after the other
over unbounded queues, as sequential C simulation does, and show what they compute. `PageNetwork` and
`GatherNetwork`, and `FlowNetwork` for the whole Query 6 kernel, run the same stages as concurrent processes over FIFOs of bounded depth, under an arbitrary
scheduler. `Runs` shows that when enabled processes never disturb each other, a single complete run decides
every run; `Kahn` shows that FIFO networks with one reader and one writer per channel are of that kind. So
each network needs one explicit schedule to get deadlock freedom, termination and schedule independence.

Page count, unit count, stream count, group size, block count, words per block and FIFO depths are
parameters under the divisibility the sources have; page size, word size and burst size are the sources'.

## What the code does not do

- **Small numerics.** A numeric of weight below -1 whose leading digit is at least 100 is misread
  (`Numeric.DecodingExact`, `Numeric.TooSmallIsMisread`).
- **Oversize tuples.** A tuple of more than 8189 data bytes never fits a page; the packer stops there and
  drops it and everything behind it without an error (`Packer.PackableExactly`, `Packer.EmptyPageMeansDone`).
  On well-formed heap pages no item is that long.
- **Page counts, peer to peer.** The block's byte offset is a product of C ints. At block 1024 it overflows;
  with the usual wrap-around the page number lies in a segment file that no relation has, and the server
  aborts the query. A relation of exactly 131072 pages fills one segment; the last turn of the loop, which
  should find no more pages, opens the next one, which as a rule does not exist. So the driver finishes
  exactly below 262144 pages other than 131072 (`Agreement.QueryPeerToPeer`, `SampleRelation.OneSegmentFails`,
  `SampleRelation.TwoGigabytesFail`).
- **FIFO depth, peer to peer.** The count is published behind the tuples. The unit finishes exactly when
  `dataStream` can hold them all; its declared depth is enough (`PageNetwork.FinishesExactly`).
- **Callbacks.** `clFinish` waits for commands, and callbacks are none: the last two blocks can still be
  missing when it returns (`PingPong.QueueFinishesFirst`).
- **Bank counts.** omxgather/README.md line 69 lists 1 as a bank count; the validation rejects it and
  accepts 32 (`Banks.ValidateBankCount`). With 32 the set-up overruns its 16-element arrays; with 16 and no
  pseudo channels it reads flags of banks that its table does not name. The set-up works exactly for 2, 4
  and 8, and for 16 with pseudo channels (`Banks.SetsUpExactly`).
- **Comments.** xql6/kernel/q6_paged.h line 67 says one page per unit; the constants make it eight. The
  code's constants are followed.

## Assumptions

- A tuple has sixteen lineitem attributes; varlena ones have a one-byte header, odd and not 0x01. Numerics
  of the three columns used have 2 to 14 payload bytes, an even number, the short form and digits below
  10000; for the exact results also weights -1 to 3.
- Line pointer 0, which both extractors visit, overlays the page's prune word and is assumed to denote an
  empty item. Other line pointers denote normal items, whose data lie apart and behind the line pointers.
- A relation is the sequence of its pages; its page count fits a C int. On disk it has its first segment file
  and one for every further 131072 pages begun, and possibly an empty one behind a full last one, which a
  truncation can leave; that last is a parameter. Opening a missing segment is an error that ends the query:
  the patched `mdread_bigd` asks for that, in the part of `_mdfd_getseg` that is PostgreSQL's own and not
  part of this model. A read inside a file returns everything up to its end.
- Whether the OpenCL calls succeed is an input, one answer to each call in order; setting the kernel's two
  arguments counts as one call. Failing calls queue nothing themselves.
- OpenCL events order write, kernel and read-back of one buffer, or kernel and read-back where buffers are
  mapped; across buffers the device may complete commands in any order, at any time.
- A buffer tied to no bank, or an array access out of bounds, ends the set-up without a result.
- Signed overflow wraps around, as compilers commonly make it.

## Model

| member | source | states |
|---|---|---|
| `Agreement.AnswerThreeTimes` | xql6/host/xql6.c:180-332 | on rows written to heap pages byte by byte, with dates of the calendar and decimals as real numbers, each of the three drivers that finishes returns ten thousand times the sum of clause 2.4.6, wrapped once to 64 bits, and which of them finish depends on the queue's answers and the page count alone |
| `Agreement.WrittenStores` | xql6/host/xql6.c:410-476 | pages with items written at any places hold exactly the rows that were written, and the exact revenue of their tuples is ten thousand times the sum of clause 2.4.6 |
| `Agreement.QueryInSoftware` | xql6/host/xql6.c:292-332 | for every relation of well-formed heap pages storing well-formed tuples `ts`, the software driver returns the sum of extPrice*discount over the selected tuples of `ts`, in exact arithmetic and only then wrapped to 64 bits, and counts every tuple |
| `Agreement.QueryInHardware` | xql6/host/xql6.c:180-290 | the ring driver succeeds exactly when the queue accepts all four calls for every block that the relation takes, and then returns the same number for every order in which the device completes commands, every group size and block size |
| `Agreement.QueryPeerToPeer` | xql6p2p/host/xql6.c:211-348 | for every relation of well-formed pages storing well-formed tuples the outcome is settled: an enqueue failure exactly when the queue refuses one of the three calls for a block that the driver comes to; otherwise the exact revenue, wrapped once, exactly below 262144 pages and not at 131072 without an empty second segment file; otherwise a read error, whatever the pages hold |
| `Agreement.StoresIsOk` | xql6/host/xql6.c:393-476 | stored tuples meet every precondition of both kinds of driver; repacked items and natively extracted items have the same sum, the exact revenue of the tuples |
| `Agreement.SameItems` | xql6p2p/kernel/q6_paged.cpp:134-220 | in-kernel extraction and repacking deliver the same items in the same order, for every relation of well-formed pages |
| `Agreement.AllDelivered` | xql6/host/xql6.c:410-476 | on well-formed pages the packer delivers every item of the relation |
| `Agreement.AllExtracted` | xql6p2p/kernel/q6_paged.cpp:165-197 | on a well-formed page the early break of the extraction loop is never taken |
| `SampleRelation.PageHolds` | xql6p2p/kernel/q6_paged.cpp:134-220 | any 1 to 8000 bytes can be placed on a well-formed heap page whose only item they are, so the premises of the theorems above are not empty |
| `SampleRelation.OneSegmentFails` | xql6p2p/host/postgresql-9.6.8.patch:103-177 | the driver on 131072 pages, one well-formed tuple on each: with every call accepted it ends in a read error |
| `SampleRelation.TwoGigabytesFail` | xql6p2p/host/xql6.c:277 | the driver on 262144 such pages: with every call accepted it ends in a read error, with or without empty segment files |
| `SampleRelation.JustBelowSucceeds` | xql6p2p/host/xql6.c:211-348 | the driver on 262143 such pages returns 600 for each of them exactly when its 3072 calls are accepted |
| `Numeric.SnumToLong3` | xql6/kernel/q6_paged.cpp:16-55 | for every well-formed numeric, with `res` wrapping at 64 bits and `dig` at 16, the routine returns the wrapped value of the digits before the point and the two after it, sign applied last, missing digits read as 0; `NumericLayout.Decode` says what that is for numbers of known weight, sign and digits |
| `Numeric.DecodingExact` | xql6/kernel/q6_paged.cpp:16-55 | that value is the stored number times 100 truncated toward zero exactly when the weight is at least -1 or the leading digit is below 100; for weight >= -1 the returned 64-bit number is right exactly when it fits |
| `NumericLayout.Decode` | xql6/kernel/q6_paged.cpp:16-55 | the routine on the stored form of any sign, weight -64 to 63, scale 0 to 63 and up to six digits: from weight -1 on the real number, sum of digit k times 10000^(weight - k), in hundredths and cut off toward zero, wrapped to 64 bits; below, where that is 0, a hundredth of the leading digit |
| `NumericLayout.HundredthsOf` | xql6/host/q6_swemu.c:165-207 | what the stored bytes mean is that real number in hundredths, cut off toward zero, for every weight |
| `NumericLayout.HeaderReads` | xql6/kernel/q6_paged.cpp:20-29 | weight and sign are read back from a header written as 7 bits of weight, 6 of scale and a sign bit |
| `NumericLayout.StoredIsWellFormed` | xql6/kernel/q6_paged.cpp:20-51 | every number of up to six digits is stored in a form that the decoder can read |
| `Numeric.ReadIsMagnitude` | xql6/host/q6_swemu.c:165-207 | for weight >= -1, reading only the whole digits and one fractional digit loses nothing: it equals the full value of all stored digits, shifted and truncated |
| `Numeric.SmallWeightFits` | xql6/host/q6_swemu.c:165-207 | for weights -1 to 3 nothing leaves the signed 64-bit range |
| `Numeric.TooSmallIsMisread` | xql6/kernel/q6_paged.cpp:31-51 | 0.00005 as the database stores it, weight -2 and scale 5, is worth 0 hundredths and read as 50 |
| `Numeric.ReadBelow` | xql6/kernel/q6_paged.cpp:31-51 | below weight -1 the true value is under a hundredth, but the leading digit is read as if it followed the point directly |
| `Numeric.PrefixCut` | xql6/kernel/q6_paged.cpp:37-51 | cutting the digit string after k digits leaves a remainder below one unit of the last digit kept |
| `Calendar.Date2J` | xql6/host/q6_swemu.c:211-230 | from March -4800 on and below 2^31, `date2j` returns the day number and no step leaves 32 bits |
| `Calendar.J2Date` | xql6/host/q6_swemu.c:232-256 | for every int from day -32044 on, `j2date` in unsigned 32-bit arithmetic returns a valid calendar date whose number is the argument |
| `Calendar.RoundTrip` | xql6/host/q6_swemu.c:211-256 | converting a date to its number and back gives the same date |
| `Calendar.NextDayNumber` | xql6/host/q6_swemu.c:211-230 | moving to the next calendar day, by the leap-year rule and the month lengths, adds exactly 1 |
| `Calendar.DaysLaterNumber` | xql6/host/q6_swemu.c:211-230 | n days later the number is n greater |
| `Calendar.SameNumberSameDate` | xql6/host/q6_swemu.c:211-256 | two dates with the same number are the same date |
| `Calendar.Located` | xql6/host/q6_swemu.c:239-253 | the date that the cycle arithmetic assembles is valid and has the number it was made from |
| `Calendar.NumberOrder` | xql6/host/q6_swemu.c:211-230 | day numbers are in calendar order |
| `Calendar.YearOf1994` | xql6/kernel/q6_paged.h:46-49 | a date is one of 1994 exactly when its number of days since the epoch is from -2191 to -1827 |
| `Calendar.EpochNumber` | xql6/kernel/q6_paged.h:41 | the first of January 2000 has the number 2451545 |
| `Layout.ParseInvertsLayout` | xql6/kernel/q6_paged.h:127-188 | sixteen attributes laid out with one-byte varlena headers and 4-byte alignment of attributes 10 to 12 read back as exactly their payloads, whatever the gap bytes and whatever follows, and the tuple ends at its last byte |
| `Layout.RowReadsBack` | xql6/kernel/q6_paged.h:127-188 | the row read at a stored tuple is the sequence of the stored attribute values |
| `Layout.ReadWritten` | postgresql/9.6/server/postgres.h:253-263 | an attribute written with SET_VARSIZE_1B, or aligned, is found at its place, with its length |
| `Query6.StoredIsEncoded` | xql6/kernel/q6_paged.h:23-26 | the tuple layout, given outright: columns of 8, 8, 8 and 4 bytes, six values behind one-byte headers, gap bytes up to a multiple of four, three dates of four bytes, three values behind one-byte headers |
| `Query6.ParsersFind` | xql6/kernel/q6_paged.h:127-188 | in those bytes, whatever follows them, the parsers find the quantity at byte 29, the ship date behind the padding, and every column as it was written, and stop at the last byte |
| `Query6.TablesAreTyped` | xql6/kernel/q6_paged.h:23-26 | the parsers' lengths are those of the column types of clause 1.4.1, and although only dates are flagged for alignment, every fixed-length column begins where its type's alignment puts it |
| `Layout.ContributionIsRevenue` | xql6/kernel/q6_paged.cpp:148-175 | what the machine decodes and adds for a stored tuple is its revenue in exact arithmetic on the stored values |
| `Layout.SelectedExactly` | xql6/kernel/q6_paged.cpp:158-160 | for all integers, the condition that the machine evaluates says: some date of 1994 is that many days from the epoch, the discount is within a hundredth of 0.06, the quantity is below 24 |
| `Query6.RevenueIsAnswer` | xql6/kernel/q6_paged.h:43-53 | for every valid row, what is added for its stored form is ten thousand times price times discount as real numbers, if it was shipped on or after 1994-01-01 and before 1995-01-01 at a discount from 0.05 to 0.07 and a quantity below 24, and nothing otherwise |
| `Query6.TotalIsAnswer` | xql6/kernel/q6_paged.cpp:136-180 | the exact revenue of stored rows is ten thousand times the sum of clause 2.4.6 |
| `Layout.DateReadsBack` | xql6/kernel/q6_paged.cpp:57-64 | a 32-bit date stored as four little-endian bytes reads back as itself, negative dates included |
| `Lineitem.GetJdate` | xql6/kernel/q6_paged.cpp:57-64 | shifting in 32 bits from the highest byte down gives the two's-complement reading of the four bytes |
| `Lineitem.WholeDate` | xql6/kernel/q6_paged.cpp:57-64 | the four bytes, shifted in from the highest, are the date but for the sign |
| `Lineitem.RowsFrom` | xql6/kernel/q6_paged.cpp:183-228 | row k of a page is the tuple that starts where the first k tuples end |
| `Lineitem.RowsFewer` | xql6/kernel/q6_paged.cpp:183-228 | a page never holds more tuples than bytes |
| `TupleParser.TupParser.GetFieldLen` | xql6/kernel/q6_paged.h:127-163 | the parser stands at the attribute's first payload byte, both offsets moved by what was consumed, and returns the attribute's length |
| `TupleParser.TupParser.GetField` | xql6/kernel/q6_paged.h:166-178 | the attribute's payload is in the front of fData, the rest of fData unchanged, the stream and both offsets just behind the attribute |
| `TupleParser.TupParser.SkipBytes` | xql6/kernel/q6_paged.h:180-188 | the stream and both offsets are just behind the attribute |
| `TupleParser.TupParser.SkipToPageEnd` | xql6p2p/kernel/q6_paged.h:197-204 | exactly the rest of the page is consumed, for a parser that starts at offset 0 or 2 |
| `TupleParser.TupParser.constructor` | xql6p2p/kernel/q6_paged.h:94-102 | the page offset starts at 2 for repacked pages and at 0 for native ones, where the header stage left the page |
| `Tuples.ParseItems` | xql6/host/xql6.c:442-456 | tuples copied one after the other parse back to their rows, whatever follows them |
| `Tuples.RowLocal` | xql6/kernel/q6_paged.h:127-188 | parsing a tuple looks at no byte behind it |
| `Tuples.SumIsRevenue` | xql6/kernel/q6_paged.cpp:136-180 | stored tuples are readable and their sum is the query's revenue |
| `Kernel.Q6Filter` | xql6/kernel/q6_paged.cpp:183-228 | all tuples of a page reach the four column streams in order, each field with its payload and length; the page is consumed to its last byte for both header stages; one end marker is sent |
| `Kernel.FilterTuple` | xql6/kernel/q6_paged.cpp:194-222 | one tuple adds exactly one field to each column, carrying attribute 4, 5, 6 or 10, and moves the stream to the next tuple |
| `Kernel.ToLong` | xql6/kernel/q6_paged.cpp:107-118 | the decoded column has the decoded value of every row, in order, and the field stream is drained |
| `Kernel.ToDate` | xql6/kernel/q6_paged.cpp:121-133 | the same for dates |
| `Kernel.Agg` | xql6/kernel/q6_paged.cpp:136-180 | the sum, wrapping at 64 bits in every step, is the wrapped sum of the contributions of all rows |
| `Kernel.GetHeaderInt2` | xql6/kernel/q6_paged.cpp:71-89 | all six count streams get the little-endian 16-bit count, the parser gets bytes 2 to 8191, and exactly one page leaves the input |
| `Kernel.GetHeaderInt2Native` | xql6p2p/kernel/q6_paged.cpp:134-220 | exactly 8192 bytes go to the parser: the data of the extracted items in line order, then the page from that offset on; the counts are the number of items |
| `Kernel.ExtractItems` | xql6p2p/kernel/q6_paged.cpp:158-197 | the line-pointer loop streams the greedy prefix of the non-empty items and counts it; fewer than 8192 bytes leave |
| `FlowWrap.Q6Paged` | xql6/kernel/q6_paged.cpp:232-266 | a unit returns the wrapped sum of the page's rows and takes exactly the page off its stream |
| `FlowWrap.Q6` | xql6/kernel/q6_paged.cpp:292-306 | a unit returns the wrapped sum over its pages and leaves its stream empty |
| `FlowWrap.ReadPages` | xql6/kernel/q6_paged.cpp:273-289 | for every unit count that divides the block, unit u receives pages u, u + numPu, ... byte for byte, nothing else |
| `FlowWrap.PageToByte` | xql6/kernel/q6_paged.cpp:92-103 | the byte stream is the unit's words end to end, and the words are used up |
| `FlowWrap.UnitsAddUp` | xql6/kernel/q6_paged.cpp:273-334 | the sum of the per-unit sums is the sum over the pages in block order |
| `FlowWrap.RunFlowWrap` | xql6/kernel/q6_paged.cpp:309-334 | the whole kernel returns the wrapped sum over the block's pages in block order, for both header stages and every unit count |
| `Machine.TwosComplement` | xql6/kernel/q6_paged.cpp:37-50 | wrapped values lie in the ranges of the C types and differ from what they stand for by multiples of 2^16, 2^32 and 2^64 |
| `SwEmu.WordReader.GetByte` | xql6/host/q6_swemu.c:56-71 | inside the page: returns the byte at the cursor and moves by 1; at its end: reports end of data |
| `SwEmu.WordReader.SkipBytes` | xql6/host/q6_swemu.c:82-94 | moves the cursor by exactly fLen, also when the skip ends on a word or at the page's end, and keeps the reader's invariant |
| `SwEmu.WordReader.GetFieldLen` | xql6/host/q6_swemu.c:96-148 | after alignment or header the cursor is at the attribute's payload, and its length is returned |
| `SwEmu.WordReader.GetField` | xql6/host/q6_swemu.c:150-163 | fData holds the next fLen bytes of the page |
| `SwEmu.ReadTuple` | xql6/host/q6_swemu.c:297-338 | the four values of the tuple at the cursor, decoded as the kernel decodes them |
| `SwEmu.DateBounds` | xql6/host/q6_swemu.c:286-287 | the two dates computed from the calendar are the kernel's constants |
| `SwEmu.Q6Paged` | xql6/host/q6_swemu.c:277-354 | one sequential pass gives the sum that the kernel's stages give for the page |
| `SwEmu.Q6SwEmu` | xql6/host/q6_swemu.c:360-378 | for every block of readable pages the emulation returns exactly what `FlowWrap.RunFlowWrap` returns |
| `HeapPage.WellFormedFits` | xql6p2p/kernel/q6_paged.cpp:165-197 | items that lie apart behind the line pointers total at most 8168 - 4 per line pointer bytes, so all of them fit a page and are taken |
| `HeapPage.ApartFits` | xql6p2p/kernel/q6_paged.cpp:187-197 | disjoint spans inside an interval are together no longer than the interval |
| `HeapPage.FitBounds` | xql6p2p/kernel/q6_paged.cpp:187-197 | the guard keeps the bytes sent below 8192 and stops only at an item that would reach it |
| `HeapPage.FitAll` | xql6p2p/kernel/q6_paged.cpp:187-197 | items that together stay below 8192 bytes are all taken |
| `HeapPage.PruneWordZero` | xql6/host/xql6.c:431-440 | line pointer 0, which both extractors visit, is the page's prune word; while that is zero it denotes an empty item |
| `HeapLayout.HeldItems` | xql6p2p/kernel/q6_paged.cpp:151-197 | for any items at any places apart from each other, with any header lengths and flags: on every page with the line-pointer end in bytes 12 and 13, line pointer k at byte 20 + 4k as offset + 2^15 flags + 2^17 length, and the header length in byte 22 of the tuple, exactly the data of the items are found, empty ones left out, in order |
| `HeapLayout.HeldIsWellFormed` | xql6p2p/kernel/q6_paged.cpp:151-197 | such a page is well formed, whatever its other bytes |
| `HeapLayout.PageExists` | postgresql/9.6/server/storage/itemid.h:24-30 | every list of items with places apart from each other has such a page |
| `HeapLayout.LineReads` | postgresql/9.6/server/access/htup_details.h:159 | line k leads past the tuple header to the data |
| `HeapPage.VisitLine` | xql6/host/xql6.c:431-461 | visiting a line keeps the greedy count: an empty line changes nothing, one that fits is taken |
| `Packer.GetNextPage` | xql6/host/xql6.c:410-476 | the page holds the count and the data of exactly the greedy prefix of what the cursor had left, the cursor has exactly the rest left, and no other byte of the block changes |
| `Packer.FillBlock` | xql6/host/xql6.c:393-408 | page k of the block holds the k-th greedy prefix; the flag tells whether the last page holds anything; the count is what the cursor lost |
| `Packer.PackLines` | xql6/host/xql6.c:429-462 | the items of a heap page are taken until one does not fit, from any resume point |
| `Packer.PackBlocks` | xql6/host/xql6.c:417-468 | across heap pages, exactly the greedy prefix has been taken, and the cursor stands at the first item that did not fit |
| `Packer.CountFits` | xql6/host/xql6.c:470-471 | the number of tuples on a page fits the 16-bit header |
| `Packer.PackIsSlice` | xql6/host/xql6.c:393-408 | page n holds precisely the items between what n and n + 1 pages leave over: none lost, none twice |
| `Packer.PacksArePackable` | xql6/host/xql6.c:393-408 | any number of pages takes a prefix of the packable items and leaves the rest in order |
| `Packer.PackableExactly` | xql6/host/xql6.c:442-461 | every item is delivered exactly when none is longer than 8189 bytes |
| `Packer.EmptyPageMeansDone` | xql6/host/xql6.c:398-407 | a page stays empty exactly when no packable item is left |
| `Drivers.RunSw` | xql6/host/xql6.c:292-332 | the driver terminates, returns the wrapped sum over all delivered items, each counted once, and their number |
| `Drivers.PackedBlockSum` | xql6/host/xql6.c:393-408 | a packed block is worth exactly the items packed into it |
| `Drivers.LastPage` | xql6/host/xql6.c:306-320 | a block whose last page is empty exhausts the packable items; any other takes at least one, so the loop ends |
| `HwDrivers.RunHw` | xql6/host/xql6.c:180-290 | the repacking ring driver succeeds exactly when the queue accepts the calls for all its blocks, and then, for every completion order, returns the wrapped sum over all delivered items, each counted once |
| `HwDrivers.PackAndSubmit` | xql6/host/xql6.c:237-255 | one turn of the loop: a block is filled from the cursor and submitted, successfully exactly when its calls are accepted; its result is the sum of the items the cursor lost, and it is the last exactly when its last page stays empty |
| `HwDrivers.Compute` | xql6/kernel/q6_paged.cpp:309-334 | the kernel function that the device model applies to a block is what the kernel's stages compute |
| `P2PDriver.RunHwNative` | xql6p2p/host/xql6.c:211-348 | for every completion order: an enqueue failure exactly when a call that the driver comes to is refused; otherwise a sum if and only if the page count lets all reads succeed, and then the wrapped sum over the items of all pages, each counted once |
| `P2PDriver.ReadAndSubmit` | xql6p2p/host/xql6.c:274-305 | one turn of the loop: a failing read means that the page count does not let the driver finish; otherwise a raw block is read, its tail cleared, submitted, and its result is the sum of the pages it covers |
| `P2PDriver.MdReadBigd` | xql6p2p/host/postgresql-9.6.8.patch:103-177 | fails exactly when the segment file of the block's first page does not exist; otherwise the buffer begins with the block's pages up to the end of the relation, and the byte count is theirs |
| `P2PDriver.ClearTail` | xql6p2p/host/xql6.c:284-287 | behind the pages that were read the buffer is all zero |
| `P2PDriver.ReadSucceeds` | xql6p2p/host/xql6.c:277-282 | with all earlier blocks full, the read of a block fails only if some read must fail, and comes up short only if none does |
| `P2PDriver.BlocksLeft` | xql6p2p/host/xql6.c:250-306 | how many blocks are enqueued: all up to the short one, or up to the one whose read fails |
| `P2PDriver.SegmentOfBlock` | postgresql/pg_config.h:775-786 | below block 1024 a segment is missing only at the end of a relation of whole segments, without an empty one behind them |
| `P2PDriver.FirstPageExactly` | xql6p2p/host/xql6.c:277 | the block's page number is right below block 1024; at block 1024 it is at least 2^31 |
| `P2PDriver.ZeroPage` | xql6p2p/host/xql6.c:284-287 | an all-zero page is readable and holds nothing |
| `P2PDriver.NativePageSum` | xql6p2p/kernel/q6_paged.cpp:134-220 | a native page is worth its extracted items |
| `P2PDriver.RawBlockSum` | xql6p2p/host/xql6.c:282-291 | a raw block is worth the pages it covers; the zero fill adds nothing |
| `Ring.Device.Fill` | xql6/host/xql6.c:241-241 | an input buffer is filled only while no command of it is in flight; other buffers are untouched |
| `Ring.Device.EnqCompute` | xql6/host/fpga_q6.c:109-155 | succeeds exactly when the queue accepts each of its calls, and then the block in the buffer is queued to the end; at a refused call it stops, and nothing, the write, or write and kernel stay queued for that buffer alone, by the number of the call |
| `Ring.Device.constructor` | xql6p2p/host/fpga_q6.c:121-160 | in the mapped mode of the peer-to-peer driver there is no write command: the kernel reads the buffer that the host filled |
| `Ring.Device.CompleteOne` | xql6/host/fpga_q6.c:113-141 | one command of one buffer completes, in the order write, kernel, read per buffer, or kernel, read with mapped buffers, and any order across buffers; no finished buffer is disturbed and no buffer goes beyond its last queued command |
| `Ring.Device.Progress` | xql6/host/fpga_q6.c:113-141 | any number of commands complete in any order, keeping every block in flight intact |
| `Ring.Device.WaitFor` | xql6/host/xql6.c:223-223 | afterwards the buffers waited for are finished, others may be |
| `Ring.Device.Collect` | xql6/host/xql6.c:226-228 | a finished buffer yields the kernel's result on the block it was last filled with |
| `Ring.Host.Submit` | xql6/host/xql6.c:239-255 | the buffer whose turn it is is free, is filled and queued, successfully exactly when all calls up to this block's are accepted; the block's result is then recorded once; a failing enqueue adds no block, whatever of it was queued |
| `Ring.AcceptedMeans` | xql6/host/fpga_q6.c:113-144 | that n calls are accepted means that the queue answers each of them with success |
| `Ring.Host.CollectGroup` | xql6/host/xql6.c:215-235 | when both groups are in flight the older one is collected, so at most 2 * group blocks are ever outstanding and a buffer is free when its turn comes |
| `Ring.Host.AddGroup` | xql6/host/xql6.c:223-231 | a group's results are added oldest first, each exactly once |
| `Ring.Host.AddOldest` | xql6/host/xql6.c:262-266 | the oldest outstanding block's result joins the sum and its buffer becomes free |
| `Ring.Host.Drain` | xql6/host/xql6.c:258-268 | all outstanding results are added: the sum is the wrapped sum of every submitted block's result, also after a failed enqueue |
| `Ring.GroupSlots` | xql6/host/xql6.c:217-227 | the group index computed from the block number names the buffers of the oldest group of blocks |
| `Ring.OldestGroup` | xql6/host/xql6.c:213-231 | at a multiple of the group size with both groups in flight, the oldest outstanding block is 2 * group blocks back |
| `Ring.OwnSlot` | xql6/host/xql6.c:241-248 | within a window of 2 * group blocks no two share a buffer |
| `Runs.OneRunDecides` | xql6/kernel/q6_paged.cpp:232-266 | if enabled processes never disturb each other, one run into a quiet state decides all: every run is no longer and can be continued to the same state |
| `Kahn.Diamond` | xql6/kernel/q6_paged.cpp:232-266 | in a network of FIFOs with one reader and one writer each, two enabled processes stay enabled and commute |
| `Kahn.OneScheduleSuffices` | xql6/kernel/q6_paged.cpp:232-266 | for such networks one complete schedule proves deadlock freedom, termination and schedule independence |
| `Kahn.AlwaysMeans` | xql6/kernel/q6_paged.cpp:232-266 | from every reachable state the end is reachable, and a reachable state is blocked exactly when it is the end |
| `PageParse.WholePage` | xql6p2p/kernel/q6_paged.cpp:317-362 | byte by byte, parser, decoders and aggregator end with every count used up, the whole page read, and the page's wrapped sum in the aggregator |
| `PageParse.FeedTuple` | xql6p2p/kernel/q6_paged.cpp:328-358 | from any tuple boundary, a tuple's bytes take all processes to the next boundary with its contribution added |
| `PageParse.FeedField` | xql6p2p/kernel/q6_paged.cpp:332-356 | an attribute is passed on exactly at its last byte, to the decoder of its column or to none |
| `PageNetwork.EveryScheduleFinishes` | xql6p2p/kernel/q6_paged.cpp:366-407 | with room for the tuple bytes in dataStream and depth 1 elsewhere, no reachable state is stuck but the final one, where the sum is the page's and every FIFO is empty |
| `PageNetwork.FinishesExactly` | xql6p2p/kernel/q6_paged.cpp:366-407 | the peer-to-peer unit finishes under all schedules if and only if the extracted tuple bytes fit dataStream |
| `PageNetwork.TooShallowStarves` | xql6p2p/kernel/q6_paged.cpp:187-204 | otherwise every schedule ends stuck, dataStream full and the aggregator without a count |
| `PageNetwork.DeclaredDepthSuffices` | xql6p2p/kernel/q6_paged.cpp:388-389 | the declared depth of 8192 suffices for every readable page, because of the guard |
| `PageNetwork.CountFirstNeverStarves` | xql6/kernel/q6_paged.cpp:71-89 | the header that publishes the count before the tuples never gets stuck, at any depth from 1 on |
| `PageNetwork.NetworkDisciplined` | xql6p2p/kernel/q6_paged.cpp:366-407 | every stream of the unit has exactly one reading and one writing process |
| `FlowNetwork.EveryScheduleSums` | xql6/kernel/q6_paged.cpp:309-334 | the whole kernel on one block - reader, byte converters, all stages of every unit over all its pages, final sum - with any unit count and any FIFO depths from 1 on that leave the dataStreams room for a page's tuple bytes: no reachable state is stuck but the final one, where every FIFO is empty and the sum is that over the pages in block order |
| `FlowNetwork.DepthsSuffice` | xql6p2p/kernel/q6_paged.cpp:388-389 | the declared depth of 8192 leaves that room for every processable block; for repacked pages depth 1 does |
| `FlowNetwork.OnePage` | xql6/kernel/q6_paged.cpp:292-306 | a page can go from the reader through all stages of its unit into the unit's sum, with every FIFO empty before and after |
| `FlowNetwork.RunInside` | xql6/kernel/q6_paged.cpp:232-306 | every run of a page's own network is a run of the whole kernel, its bytes brought by reader and converter |
| `FlowNetwork.NetworkDisciplined` | xql6/kernel/q6_paged.cpp:309-334 | every stream of the whole kernel has exactly one reading and one writing process |
| `GatherNetwork.EveryScheduleGathers` | omxgather/kernel/gather.cpp:310-390 | with every FIFO of any depth >= 1: whatever the schedule did, it can finish; it is stuck exactly when all FIFOs are empty and every output row is the row its index points to |
| `GatherNetwork.KernelConfigValid` | omxgather/kernel/gather.cpp:57-102 | for 1, 2, 4, 8 and 16 streams both layouts agree on the stream of every entry, which is what the network needs |
| `GatherNetwork.OneEntry` | omxgather/kernel/gather.cpp:57-134 | an entry can pass from the input burst through its worker into the output burst with every FIFO empty before and after |
| `Interleave.LaneIsRoundRobin` | omxgather/kernel/gather.cpp:66-82 | small-stream and large-stream layout both send entry e to stream e mod STREAM |
| `Interleave.LaneOfEntry` | omxgather/kernel/gather.cpp:229-249 | the same for the collecting side, entry by entry |
| `Gather.GatherReadIn` | omxgather/kernel/gather.cpp:57-85 | entry e lies in stream e mod STREAM at position e / STREAM, and every stream holds its share |
| `Gather.ReadAWork` | omxgather/kernel/gather.cpp:107-134 | a worker turns its indices into the two words of each row, in order; a worker beyond the stream count does nothing |
| `Gather.GatherReadAll` | omxgather/kernel/gather.cpp:169-215 | all measure and group words lie in the result streams where the indices lay |
| `Gather.GatherWriteOut` | omxgather/kernel/gather.cpp:220-252 | output burst b holds rows 4b to 4b + 3, measure and group side by side, and the result streams are used up in order |
| `Gather.RunGather` | omxgather/kernel/gather.cpp:310-390 | output row e is the table row that entry e points to, for every stream count |
| `Banks.ValidateBankCount` | omxgather/src/main.cpp:543-559 | accepts exactly 2, 4, 8, 16 and 32 |
| `Banks.AcceptedCountsFit` | omxgather/src/main.cpp:134-142 | for every accepted count the remapping arithmetic has room: a bank's rows fit its stride and divide evenly, and all addresses fit 32 bits |
| `Banks.InMapp` | omxgather/src/main.cpp:129-153 | every index is remapped in 32-bit arithmetic to its bank's address range, or kept in software emulation; the input is not changed |
| `Banks.BankedInBank` | omxgather/src/main.cpp:145-148 | the remapped index lies in the bank that holds the row, at the row's offset |
| `Banks.BankedMonotone` | omxgather/src/main.cpp:145-148 | remapping keeps the order of indices |
| `Banks.InjectiveExactly` | omxgather/src/main.cpp:145-148 | remapping keeps indices apart exactly when there is one bank or a bank's rows fit the stride |
| `Banks.BankCopy` | omxgather/src/main.cpp:755-762 | with buffers a stride apart, memory at the remapped index of row k holds row k after the copy, for every k |
| `Banks.CIndirect` | omxgather/src/main.cpp:155-170 | out[i] is A[in[i]] |
| `Banks.GatherBlock` | omxgather/src/main.cpp:129-170 | with buffers a stride apart, remapping, bank copy and kernel together give out[e] == A[in[e]] on the unmapped indices, what `cIndirect` computes |
| `Banks.MapBuffers` | omxgather/src/main.cpp:654-702 | every array access is in bounds exactly for at most 16 buffers, and then buffer i has the flags of bank i, or 2i without pseudo channels |
| `Banks.SetsUpExactly` | omxgather/src/main.cpp:654-702 | of the accepted counts, the set-up overruns no array and gives every part of the table its bank exactly for 2, 4 and 8, and for 16 with pseudo channels |
| `Banks.ThirtyTwoOverruns` | omxgather/src/main.cpp:654-658 | 32 buffers cannot be set up |
| `Banks.SixteenWithoutChannels` | omxgather/src/main.cpp:660-697 | with 16 buffers and no pseudo channels the eleventh is tied to no bank |
| `Banks.GatherOnHost` | omxgather/src/main.cpp:535-564 | from bank count, channel mode and stream count to a gathered block: refused exactly for counts that fail validation, successful exactly for those that can be set up, and then every row is A[in[e]] |
| `GatherAgreement.GatherIsRight` | omxgather/src/main.cpp:415-504 | with every kernel a network over FIFOs of any depth from 1 on, scheduled in its own way on the remapped indices of its block, a run of the driver with callbacks that cannot go on has row A[in[i]] at every place i of the result, in whatever way kernels, read-backs and callbacks interleaved |
| `GatherAgreement.KernelWrites` | omxgather/kernel/gather.cpp:310-390 | under every schedule the words that a kernel writes are, entry by entry, the two table words at the remapped index |
| `GatherAgreement.KernelAlwaysWrites` | omxgather/kernel/gather.cpp:310-390 | every kernel has such an output, so the theorem is about something |
| `PingPong.NeverOverwritten` | omxgather/src/main.cpp:444-497 | in every interleaving, word by word, a kernel writes a device buffer only when every earlier block of it has been read back, a read-back writes a mirror only when every earlier block of it has been copied, and never while the buffer is being read |
| `PingPong.StopsWithAllInPlace` | omxgather/src/main.cpp:321-333 | a run can stop exactly when all callbacks have run, and then block k of the result is the k-th kernel's output |
| `PingPong.RunsEnd` | omxgather/src/main.cpp:444-497 | every run ends within as many steps as there are calls to make and words to write |
| `PingPong.AtFinish` | omxgather/src/main.cpp:499-501 | when clFinish has returned, all blocks but the last two are in place; the whole result is right exactly when the words that the last two callbacks have still to copy were right before; and all callbacks have run exactly when the last two have |
| `PingPong.BlockRightExactly` | omxgather/src/main.cpp:321-333 | a block of the result is right exactly when the words its callback has not copied were right before |
| `PingPong.QueueFinishesFirst` | omxgather/src/main.cpp:499-501 | for every number of blocks some run has clFinish return with the last two blocks of the result still untouched |
| `PingPong.RunInv` | omxgather/src/main.cpp:444-497 | the invariant of order and contents holds in every reachable state |
| `PingPong.StepInv` | omxgather/src/main.cpp:464-497 | host calls, kernels, read-backs and callbacks each keep it |
| `PingPong.CopiedBlock` | omxgather/src/main.cpp:321-333 | a block whose callback has run holds the kernel's output, one whose callback has not begun what was there before |

## Left out

- Ring.Host.Submit: the device's steps interleave with the host's in whole steps, not inside the copying of one block; an idle buffer is not the device's to touch.
- HwDrivers.RunHw: says nothing about the sum when an enqueue fails; the driver reports failure and no result.
- P2PDriver.RunHwNative: like HwDrivers.RunHw, says nothing about the sum when an enqueue fails, and nothing about what the server does with an aborted query.
- P2PDriver.MdReadBigd: disk errors and short reads inside a file; the driver's check of a negative byte count can never hold, because the count is unsigned.
- Kernel.Q6Filter: the four field streams are lanes of one stream array, and the bytes of a 16-byte field between payload and length are arbitrary.
- Kernel.ToLong: the three value streams are lanes of one stream array.
- SwEmu.WordReader.GetFieldLen: short varlena headers only. The source's test for long headers can never hold, because `==` binds tighter than `&`; the kernel exits on such headers.
- Numeric.SnumToLong3: the locals scale, nTotDigs, nFracDigs and nZer0Digs, which do not affect the result, are omitted.
- Banks.InMapp: the warning for an index beyond the last bank is omitted; floor of an integer quotient is the quotient.
- Banks.GatherBlock: the kernel's sixteen memory ports are one flat memory.
- PingPong.NeverOverwritten: covers the output side only; each kernel is assumed to receive its own input block.
- The input side of both gather drivers: the copy into the staging buffer comes before the wait for block k-2, so that it is never overwritten in flight does not follow from the code.
- The gather driver without callbacks: it has one output buffer per block, so nothing is overwritten.
- FlowNetwork.EveryScheduleSums: says that room for the tuple bytes suffices, not that too little room in one unit starves the whole; that is `PageNetwork.FinishesExactly` for the unit. Units take their pages one after the other, as the call in a loop has it; overlapping them is a choice of the synthesis tool.
- Banks.GatherOnHost: one block, run stage by stage, and every table of the source's size; software emulation keeps indices as they are and needs no banks.
- Corrupt pages, redirected or dead line pointers, TOAST: outside the sources' own assumptions.
- OpenCL set-up and teardown, kernel loading, PostgreSQL buffer locks, logging, timing, result strings and argument parsing.
- xql6p2p/host/q6_swemu.c: a near copy of the modelled emulation.
- The test benches, and the vendored PostgreSQL and Perl headers except for the varlena header format.
- Agreement.AnswerThreeTimes: rows whose decimals are whole hundredths, as decimal(15,2) has them, and whose ship date counts from March -4800; `Agreement.QueryInSoftware` and its siblings cover decimals with further digits, cut off to hundredths.
