# Region allocator and region logs of the OMR compiler

This project models the compiler's region (arena) allocator, `TR::Region`, together with its per-region diagnostic logs, in Dafny.

A region hands out memory by bumping a cursor in its current segment:
- It starts on an inline segment of 4096 bytes.
- When the current segment is too small, it asks its `SegmentProvider` for a new segment and links it in front of the chain.
- Every request is rounded up to a multiple of 16, and the region keeps a running total of the rounded sizes.

Teardown happens in a fixed order:
1. The region runs its destroyers, newest first.
2. It unlinks every segment except the inline one and gives each back to the provider, newest first.
3. It then either discards its log or completes it.

While the provider collects region statistics, each region keeps a `RegionLog`:
- The log records creation and end timestamps from the provider's logical clock.
- It holds six accumulating provider counters: raw, in-use and real-in-use bytes, each allocated and freed.
- It keeps a histogram of rounded bytes per allocation call site. A call site is a fixed ten-frame backtrace, compared slot by slot and hashed by XOR.
- Logs sit on an intrusive doubly-linked list whose head and tail slots belong to the provider.
- A log prints as a line-oriented text report. Each frame appears there as the offset that `putOffset` cuts out of a `backtrace_symbols` line.

`RegionMemoryLog` is a second copy of the log with the same report format. It differs from `RegionLog` in a few ways:
- its flag is `_isStack`, and its marker is `S` when the flag is set, where `RegionLog` keeps `_isHeap` and prints `H` when that is set;
- it captures its creation trace itself;
- it has accumulation primitives;
- it searches for `(+0x` where `RegionLog` searches for `(`;
- its list operations insist on non-null arguments.

Files:
- `words.dfy`: `size_t`, `uint32_t` and `int32_t`, with explicit 2^64 wrap-around.
- `wrappers.dfy`: `Option`.
- `cstrings.dfy`: `strstr` and `strchr`.
- `traces.dfy`: backtrace fingerprints, their equality and their hash.
- `reports.dfy`: the decimal `%d`/`%zu` rendering and a parser for header lines.
- `offsets.dfy`: `putOffset`.
- `logreports.dfy`: the report text and the counter updates shared by both log classes.
- `segments.dfy`: memory segments and the segment provider.
- `regionlog.dfy`: `RegionLog` and its list.
- `regionmemorylog.dfy`: `RegionMemoryLog` and its list.
- `region.dfy`: `TR::Region`.

How the model is built:
- A region is a class. Its ghost state holds three things:
  - the segment chain, from the current segment back to the inline one;
  - the rounded sizes served;
  - the call sites that requested them.
- `Region.Valid()` ties that ghost state to the fields:
  - the `prev` links of the chain;
  - the running total, as the wrapping sum of the sizes served;
  - the log's histogram, as the map built from the call sites and sizes.
- Both list classes keep their nodes as a ghost sequence in head-to-tail order. `Valid()` ties that sequence to the head and tail slots and the `prev`/`next` links.

`Region.cpp` creates, updates and removes a `RegionLog`, and this model follows it. `RegionMemoryLog` is modelled on its own, as its source file defines it.

`round(b)` is `(b + 15) & ~15` on `size_t`. It lies in `[b, b + 16)` for every size except the fifteen largest, whose sum wraps and which round to 0. `Regions.Round` states both cases.

## Model

| member | source | states |
|---|---|---|
| Words.AddSize | compiler/env/Region.cpp:160 | `size_t` addition: the sum reduced modulo 2^64 |
| Words.SubSize | compiler/env/Region.cpp:195-197 | `size_t` subtraction: the difference reduced modulo 2^64, and adding the subtrahend back gives the minuend |
| Words.Int32Of | compiler/env/Region.cpp:47 | storing a `uint32_t` timestamp in an `int32_t` gives the same value modulo 2^32, and the value itself below 2^31 |
| Words.SubAfterAdd | compiler/env/Region.cpp:195-197 | a counter read after growing by `c` differs from its snapshot by exactly `c`, wrap or no wrap |
| Words.SubOfSub | compiler/env/Region.cpp:133-135 | the snapshot minus a counter that shrank by `c` is `c`, wrap or no wrap |
| Words.SubSub | compiler/env/Region.cpp:115 | shrinking a counter by `s` and then by `c` shrinks it by the wrapping sum `s + c` |
| Words.SumSizeAppend | compiler/env/Region.cpp:176 | one more rounded size adds it to the wrapping running total |
| Words.SumSizeIsNatSumModulo | compiler/env/Region.cpp:176-190 | the wrapping running total is the plain sum of the sizes modulo 2^64 |
| Regions.Round | compiler/env/Region.cpp:208-212 | `round(b)` is a multiple of 16; for `b <= 2^64 - 16` it lies in `[b, b + 16)`; the fifteen largest `b` round to 0 |
| Regions.Counted | compiler/env/Region.cpp:157-165 | charging a call site adds it to the keys, adds the size to its entry or starts the entry with the size, and leaves every other entry alone |
| Regions.HistogramEntry | compiler/env/Region.cpp:157-165 | after any sequence of requests, a call site has an entry iff some request came from it, and the entry is the wrapping sum of that site's sizes |
| Regions.HistogramAppend | compiler/env/Region.cpp:157-165 | one more request updates the histogram exactly as one charge of its call site |
| Regions.ReversedAt | compiler/env/Region.cpp:101-106 | position `j` of the run order is position `n - 1 - j` of the registration order |
| Regions.ReversedMultiset | compiler/env/Region.cpp:101-106 | the run order holds each registered destroyer exactly as often as it was registered |
| Regions.Region.constructor | compiler/env/Region.cpp:32-57 | a valid region: total 0, nothing served, no destroyers, a fresh empty inline segment as the whole chain; a log stamped with the next tick, the provider's byte count and frames 1 to 3, appended to the provider's list (its `prev` the old tail, its `next` null), exactly when the provider collects regions; the list stays well formed, and the old tail, the log of a region built before, keeps its data and destroyed flag |
| Regions.Region.FromPrototype | compiler/env/Region.cpp:59-84 | as the constructor, on the prototype's provider, with an inline segment that is in no chain of the prototype; the provider's list stays well formed, and the old tail's log keeps its data and destroyed flag |
| Regions.Region.NewLog | compiler/env/Region.cpp:41-56 | no log and an untouched provider when not collecting; otherwise a fresh log at the tail of a still well-formed list, and the clock one tick on; either way the old tail keeps its data and destroyed flag |
| Regions.Region.StampedLog | compiler/env/Region.cpp:43-53 | a fresh unlinked log with the heap flag, start time = the new clock value as `int32_t`, start bytes = the provider's count, frames 1 to 3, every other field at the log's defaults |
| Regions.Region.Allocate | compiler/env/Region.cpp:141-201 | keeps `Valid`; the offset is 16-byte aligned; the total grows by `round(size)`; the call site's entry grows by `round(size)`; with room, the same chain, offset = the old cursor, an untouched provider and the same log counters; without room, a fresh segment of at least the rounded size in front, offset 0, the old segment's cursor untouched, the provider grown by its capacity, and the three `*Allocated` log counters grown by the provider's counter changes, taken as `size_t` differences |
| Regions.Region.Account | compiler/env/Region.cpp:150-171 | keeps `Valid`; records the request; charges the call site; the three snapshots equal the provider's counters when logging and are 0 otherwise |
| Regions.Region.ServeInPlace | compiler/env/Region.cpp:174-185 | keeps `Valid` and serves from the current segment at its old cursor, which is 16-byte aligned; the "segment provider changed" warning is proved unreachable |
| Regions.Region.ServeGrown | compiler/env/Region.cpp:186-200 | keeps `Valid`; the new segment is fresh, heads the chain and is current; the provider issued exactly it; the log's `*Allocated` counters grow by the provider's counter changes, as `size_t` differences |
| Regions.Region.Grow | compiler/env/Region.cpp:186-200 | request, link in front, become current and allocate from offset 0; the provider state is `Supplied` |
| Regions.Region.LogGrowth | compiler/env/Region.cpp:193-198 | the `*Allocated` log counters grow by the three `size_t` differences against the snapshots, each of which equals the new segment's capacity |
| Regions.Region.Take | compiler/env/Region.cpp:184 | the bump keeps `Valid` and returns the old cursor, which is 16-byte aligned |
| Regions.Region.Destroy | compiler/env/Region.cpp:86-139 | destroyers run in reverse registration order; the chain unwinds to the inline segment; every shed segment is released once, newest first, and unlinked; the counters drop by the shed capacities; the provider's list stays well formed; the log ends as `LogFinished` says: discarded, its neighbours keeping their data and destroyed flags, or completed, keeping its heap flag, creation trace, start time, start bytes and call-site map |
| Regions.Region.FreeSegmentsAndLog | compiler/env/Region.cpp:108-138 | what follows the destroyer loop: the segment unwinding and the log's end, with the same guarantees as `Destroy` |
| Regions.Region.RunDestroyers | compiler/env/Region.cpp:101-106 | the destroyers run from `_lastDestroyer` along `prev()`: the reverse of the registration order |
| Regions.Region.UnwindSegments | compiler/env/Region.cpp:108-117 | the loop ends at the inline segment; the released segments are the chain minus the inline one, in chain order; each counter is down by their total capacity; every shed segment is unlinked |
| Regions.Region.ShedOne | compiler/env/Region.cpp:113-116 | one round unlinks the current segment, makes its predecessor current and releases it, keeping the chain valid |
| Regions.Region.UnwoundStep | compiler/env/Region.cpp:115 | releasing one more segment of the chain extends the unwound provider state by that segment |
| Regions.Region.FinishLog | compiler/env/Region.cpp:121-138 | the provider's list stays well formed on both paths; when the total is at most 4096, the log comes off the list and is destroyed, the clock stays, and its neighbours keep their data and destroyed flags; otherwise the log is completed and keeps its heap flag, creation trace, start time, start bytes and call-site map; the provider's counters do not change |
| Regions.Started | compiler/env/Region.cpp:32-57 | a region built on a fresh provider is valid, has counters at 0 and a well-formed list, which holds the region's unlinked log exactly when the provider collects, with the clock at 1; the provider collects exactly when asked to |
| Regions.Sibling | compiler/env/Region.cpp:59-84 | a region built from a valid region's prototype leaves that region valid, although its log was linked behind that region's own; the sibling is valid and fresh, with a fresh inline segment, and its log, if any, extends the list and the clock by one |
| Regions.Siblings | compiler/env/Region.cpp:32-84 | a region and a sibling on a fresh provider are both valid, on different inline segments; the list holds both logs in order, with the clock at 2, when collecting, and is empty otherwise |
| Regions.Served | compiler/env/Region.cpp:141-201 | after one request on such a region, the offset is aligned, the total is `round(size)`, the chain is the inline segment with one fresh segment in front exactly when `round(size) > 4096`, and the provider's counters hold that segment's capacity or 0 |
| Regions.ServeFirst | compiler/env/Region.cpp:141-201 | the first request on a region just built: the chain stays valid, the segment in front, if any, is fresh and holds all the provider's bytes, and the inline segment stays last |
| Regions.Lifecycle | compiler/env/Region.cpp:32-139 | construct, serve one request, tear down: the offset is aligned, no destroyer runs, the counters return to 0, the serving segment is released exactly when the region grew, and the list keeps the log, with the clock at 2, only for a logged region that grew |
| Regions.TearDown | compiler/env/Region.cpp:86-139 | `~Region` on the only region of a provider that was served at most one fresh segment: the counters return to 0, only that segment is released, and the list ends well formed, holding the log only when the region grew |
| Regions.LogOutcome | compiler/env/Region.cpp:121-138 | for the only log on the list, teardown leaves it on the list with the clock two ticks on when the total exceeds 4096, and an empty list otherwise |
| Regions.GaveBackAll | compiler/env/Region.cpp:108-117 | unwinding a chain of at most two segments, where the provider holds only the front segment's bytes, brings the counters back to 0 and releases only that segment |
| Regions.Region.CompleteLog | compiler/env/Region.cpp:130-137 | the end time is the next tick; the end bytes are the provider's count; each `*Freed` counter grows by what teardown freed; the log's total is the region's total; its heap flag, creation trace, start time, start bytes and call-site map stay as they were |
| Segments.Segment.constructor | compiler/env/Region.cpp:36 | a segment of the given capacity, nothing used, unlinked |
| Segments.Segment.Allocate | compiler/env/Region.cpp:184 | returns the old cursor and moves the cursor by `n`, within the capacity |
| Segments.Segment.Link | compiler/env/Region.cpp:188 | the segment points to the one it was put in front of |
| Segments.Segment.Unlink | compiler/env/Region.cpp:114 | returns the previous link and clears it |
| Segments.SegmentProvider.constructor | compiler/env/SegmentProvider.hpp:55-58 | keeps the default segment size (a `const`); empty log list with null head and tail; not collecting |
| Segments.SegmentProvider.Copy | compiler/env/SegmentProvider.hpp:60-63 | the copy has the same default size and its own empty log list |
| Segments.SegmentProvider.SetCollectRegionLog | compiler/env/SegmentProvider.hpp:46 | turns collection on and changes nothing else |
| Segments.SegmentProvider.RecordEvent | compiler/env/SegmentProvider.hpp:47 | returns the new value of a 32-bit logical clock advanced by one, and changes nothing else |
| Segments.SegmentProvider.Request | compiler/env/SegmentProvider.hpp:39 | a fresh, empty, unlinked segment with `remaining() >= requiredSize`; the three counters grow by its capacity |
| Segments.SegmentProvider.Release | compiler/env/SegmentProvider.hpp:40 | always succeeds; records the segment as released; the three counters drop by its capacity |
| Traces.EntriesEqual | compiler/env/RegionLog.hpp:26-29 | two call sites compare equal iff all ten slots are equal |
| Traces.RegionTracesEqual | compiler/env/RegionLog.hpp:147-150 | two logs compare equal iff their three creation-trace slots are equal |
| Traces.Hash | compiler/env/RegionMemoryLog.cpp:185-194 | the loop computes the XOR of the ten slot hashes, starting from 0 |
| Traces.XorFoldAppend | compiler/env/RegionLog.hpp:38-43 | XORing in one more slot extends the fold by that slot's hash |
| Traces.XorFoldPermutation | compiler/env/RegionLog.hpp:36-44 | the hash does not change when the slots are permuted |
| CStrings.Find | compiler/env/RegionLog.cpp:37-39 | a match found lies inside the string, at or after the start |
| CStrings.FindIsFirst | compiler/env/RegionLog.cpp:37-43 | `strstr` finds the first occurrence at or after the start, and finds nothing exactly when there is none |
| Offsets.Closing | compiler/env/RegionMemoryLog.cpp:60-67 | the offset's start and end positions lie in the line, in order |
| Offsets.ClosingIsFirst | compiler/env/RegionLog.cpp:37-43 | no offset iff the executable name is absent; otherwise the offset starts four past the first opener after the first occurrence of the name and ends at the first `)` after that |
| Offsets.ClosingParen | compiler/env/RegionLog.cpp:43 | the position overwritten with NUL held a `)` |
| Offsets.OffsetFieldShape | compiler/env/RegionLog.hpp:48-60 | the output is empty iff the name is absent; otherwise it is the offset, which holds no `)`, followed by a space |
| Offsets.PutOffset | compiler/env/RegionLog.cpp:34-46 | prints the offset field of the line; the buffer is unchanged when the name is absent, and otherwise only its closing `)` becomes NUL |
| LogReports.PrintTrace | compiler/env/RegionLog.cpp:136-142 | the frame loop prints the offset fields of the frames in order |
| LogReports.PrintCallsites | compiler/env/RegionLog.cpp:143-154 | the map loop visits every call site exactly once, in some order, and prints its bytes and offsets per line |
| LogReports.Increased | compiler/env/Region.cpp:195-197 | a growth update leaves the three `*Freed` counters alone |
| LogReports.Released | compiler/env/Region.cpp:133-135 | a release update leaves the three `*Allocated` counters alone |
| LogReports.IncreaseReleaseCommute | compiler/env/RegionMemoryLog.cpp:169-183 | increase and release commute |
| LogReports.IncreasedTwice | compiler/env/RegionMemoryLog.cpp:169-175 | two increases make one increase by the wrapping sums |
| LogReports.ReleasedTwice | compiler/env/RegionMemoryLog.cpp:177-183 | two releases make one release by the wrapping sums |
| LogReports.HeaderIsFirstLine | compiler/env/RegionLog.cpp:129-134 | the first line of a report is its header line |
| LogReports.ReportHeaderRoundTrip | compiler/env/RegionLog.cpp:118-155 | parsing the first line of a printed report gives back exactly its marker and eleven fields |
| Reports.NatToString | compiler/env/RegionLog.cpp:129 | `%zu` gives decimal digits without leading zeros |
| Reports.IntToString | compiler/env/RegionLog.cpp:129 | `%d` gives a non-empty token without spaces or newlines |
| Reports.NatRoundTrip | compiler/env/RegionLog.cpp:129-134 | parsing a printed `size_t` gives it back |
| Reports.IntRoundTrip | compiler/env/RegionLog.cpp:129-134 | parsing a printed `int` gives it back, sign included |
| Reports.FieldsRoundTrip | compiler/env/RegionLog.cpp:129-134 | the space-separated fields parse back to the same list |
| Reports.HeaderRoundTrip | compiler/env/RegionLog.cpp:119-134 | a header line parses back to its marker and fields |
| RegionLogs.RegionLog.constructor | compiler/env/RegionLog.cpp:12-28 | start time -2, end time -1, every byte counter 0, no neighbours, an empty map |
| RegionLogs.RegionLog.Marker | compiler/env/RegionLog.cpp:121-128 | `H` iff the region is a heap region, `S` otherwise |
| RegionLogs.RegionLog.HeaderFields | compiler/env/RegionLog.cpp:129-134 | the header fields, in order: 0, start time, end time, the six counters, start bytes, end bytes |
| RegionLogs.RegionLog.Print | compiler/env/RegionLog.cpp:118-155 | the report: header, creation offsets, then one line per call site, each site exactly once |
| RegionLogs.RegionLog.LinkAfter | compiler/env/RegionLog.cpp:67-68 | the two stores join the nodes and change nothing else in either; both keep their destroyed flags |
| RegionLogs.RegionLog.ListInsert | compiler/env/RegionLog.cpp:49-71 | no-op for a null list or target; otherwise the list becomes old list + [target], stays well formed and has target as tail; an empty list gets target as head; otherwise the old tail links to target and back, keeping its data and destroyed flag |
| RegionLogs.RegionLog.StartList | compiler/env/RegionLog.cpp:56-60 | an empty list becomes [target], with head = tail = target |
| RegionLogs.RegionLog.AppendBehind | compiler/env/RegionLog.cpp:61-70 | appends behind the tail; the head stays; both links are set; the old tail keeps its data and destroyed flag |
| RegionLogs.RegionLog.ListRemove | compiler/env/RegionLog.cpp:73-116 | no-op for null; otherwise the node list loses just the target at its old position, in order, and stays well formed; target's neighbours are joined to each other, and their data and destroyed flags stay as they were; target is unlinked and destroyed; the four cases set head and tail as the source does |
| RegionLogs.RegionLog.RemoveLinked | compiler/env/RegionLog.cpp:84-115 | the non-null case of the removal, with the same guarantees |
| RegionLogs.RegionLog.Detach | compiler/env/RegionLog.cpp:84-115 | the slot update and then the unlinking: the four head/tail cases, the node list without position `k`, the neighbours joined and otherwise untouched, and every link between two other nodes kept |
| RegionLogs.RegionLog.MoveSlots | compiler/env/RegionLog.cpp:84-104 | head and tail in the four cases: only, head, tail, middle |
| RegionLogs.RegionLog.Unlink | compiler/env/RegionLog.cpp:105-115 | joins the neighbours, keeping their outer links, data and destroyed flags; clears target's links and destroys it |
| RegionLogs.RegionLog.PrintList | compiler/env/RegionLog.cpp:160-168 | walking `next` from the head prints each log of the list once, head to tail, as its report |
| RegionLogs.RegionLog.HeaderListInsert | compiler/env/RegionLog.hpp:154-167 | the header's insert, as written: the non-empty case leaves the old tail's `next` unchanged |
| RegionLogs.HeaderInsertLosesSecond | compiler/env/RegionLog.hpp:162-166 | after two header inserts, the head has no successor although the tail points back to it |
| RegionLogs.AppendedValid | compiler/env/RegionLog.cpp:67-69 | linking a node behind the tail leaves a well-formed list of one more node |
| RegionLogs.RelinkedValid | compiler/env/RegionLog.cpp:105-112 | joining a removed node's neighbours leaves a well-formed list without it |
| RegionLogs.RegionLogList.constructor | compiler/env/SegmentProvider.hpp:50-51 | the provider's list slots start null: an empty, well-formed list |
| RegionLogs.RegionLogList.NextOf | compiler/env/RegionLog.cpp:166 | from the node at position `i`, `next` leads to position `i + 1`, or to null at the end |
| RegionMemoryLogs.RegionMemoryLog.constructor | compiler/env/RegionMemoryLog.cpp:26-55 | stores the start time, start bytes and stack flag; frames 2 to 4 for a stack region, otherwise 1 to 3; all six counters and the end bytes 0; no neighbours |
| RegionMemoryLogs.RegionMemoryLog.Marker | compiler/env/RegionMemoryLog.cpp:128-129 | `S` iff the region is a stack region, `H` otherwise |
| RegionMemoryLogs.RegionMemoryLog.HeaderFields | compiler/env/RegionMemoryLog.cpp:128-133 | 0, start time, end time, the six counters, start bytes, end bytes, in that order |
| RegionMemoryLogs.RegionMemoryLog.Print | compiler/env/RegionMemoryLog.cpp:125-154 | the report: header, creation offsets, then one line per call site, each once |
| RegionMemoryLogs.RegionMemoryLog.AccumulateMemoryIncrease | compiler/env/RegionMemoryLog.cpp:169-175 | only the three `*Allocated` counters grow, each by its argument with wrap-around; everything else is unchanged |
| RegionMemoryLogs.RegionMemoryLog.AccumulateMemoryRelease | compiler/env/RegionMemoryLog.cpp:177-183 | only the three `*Freed` counters grow, each by its argument; everything else is unchanged |
| RegionMemoryLogs.RegionMemoryLog.LinkAfter | compiler/env/RegionMemoryLog.cpp:85-86 | the two stores join the nodes and change nothing else; both keep their destroyed flags |
| RegionMemoryLogs.RegionMemoryLog.ListInsert | compiler/env/RegionMemoryLog.cpp:73-89 | the list becomes old list + [target], well formed, with target as tail, and the old tail keeps its data and destroyed flag; the asserted non-null head is a consequence of a well-formed list |
| RegionMemoryLogs.RegionMemoryLog.StartList | compiler/env/RegionMemoryLog.cpp:77-81 | an empty list becomes [target] |
| RegionMemoryLogs.RegionMemoryLog.AppendBehind | compiler/env/RegionMemoryLog.cpp:82-88 | appends behind the tail, the head unchanged, the old tail keeping its data and destroyed flag |
| RegionMemoryLogs.RegionMemoryLog.ListRemove | compiler/env/RegionMemoryLog.cpp:91-123 | the list loses just the target at its old position, in order, and stays well formed; neighbours joined, with their data and destroyed flags unchanged; target unlinked and destroyed; head and tail by the four cases |
| RegionMemoryLogs.RegionMemoryLog.Detach | compiler/env/RegionMemoryLog.cpp:95-122 | the slot update and then the unlinking: the four head/tail cases, the node list without position `k`, the neighbours joined and otherwise untouched, and every link between two other nodes kept |
| RegionMemoryLogs.RegionMemoryLog.MoveSlots | compiler/env/RegionMemoryLog.cpp:95-111 | head and tail in the four cases |
| RegionMemoryLogs.RegionMemoryLog.Unlink | compiler/env/RegionMemoryLog.cpp:112-122 | joins the neighbours, keeping their outer links, data and destroyed flags; clears target's links, destroys it |
| RegionMemoryLogs.RegionMemoryLog.PrintList | compiler/env/RegionMemoryLog.cpp:159-167 | prints each log of the list once, head to tail |
| RegionMemoryLogs.AppendedValid | compiler/env/RegionMemoryLog.cpp:85-87 | linking behind the tail leaves a well-formed list |
| RegionMemoryLogs.RelinkedValid | compiler/env/RegionMemoryLog.cpp:112-119 | joining the neighbours leaves a well-formed list without target |
| RegionMemoryLogs.RegionMemoryLogList.NextOf | compiler/env/RegionMemoryLog.cpp:165 | `next` leads from position `i` to `i + 1`, or to null at the end |

## Left out

- `INITIAL_SEGMENT_SIZE` is taken as 4096. `Region.hpp`, which defines it, is not part of this model.
- `MemorySegment` is not part of this model. A segment is its capacity, its cursor and its `prev` link; its bytes and addresses are not modelled, and `allocate` returns the segment and an offset into it.
- The provider's pure virtual operations are given one conforming behaviour: a fresh segment of the default or the requested size, whichever is larger; counters that follow the capacities handed out and given back; and a clock that advances by one per event. Concrete providers are not shown.
- Running out of memory and exceptions from `request` are not modelled, since segments are created by the model itself.
- Backtraces (`unw_backtrace`) become a `frames` parameter. Symbolization (`backtrace_symbols`) becomes a `symbolize` function parameter, and the target executable's name becomes `exe`.
- `fprintf` output is returned as text. The messages written to `stderr` are not modelled. The one in `allocate` is proved unreachable; the one in the insert never fires on a well-formed list.
- Concurrency on a shared provider or list is not modelled.
- `Regions.Region.Deallocate` has an empty body and no contract, because `deallocate` does nothing.
- `Regions.Region.RegisterDestroyer` stands for destroyer registration, which `Region.hpp` does. That file is not modelled, and the method only appends the destroyer's id.
- On the growth path of `allocate`, the model adds to the running total before requesting the segment, and allocates from the new segment before updating the log. Nothing reads those values in between, so the reordering cannot be observed.
- The header copy of the list removal is not modelled, nor is the header copy of `printRegionLog` (`RegionLog.hpp:109-145`, `:169-198`). Neither is well-formed C++: `*head->_prev` applies `->` to a `RegionLog **`, and the print uses the undeclared `_sequenceNumber`, `region` and `out_file`. Read as evidently meant, the removal does for a node of the list what `ListRemove` does, except that it does not destroy the node.
- `RegionMemoryLog`'s end time is left unconstrained, because its constructor leaves `_endTime` uninitialised. No region in `Region.cpp` uses a `RegionMemoryLog` or its list.
- `std::hash<void *>` is taken to be the identity on the pointer's bits, which is what libstdc++ and libc++ do. The standard leaves it to the implementation.
- `Traces.Hash` works on 64-bit words written as bit sequences, since XOR acts on each bit on its own.
- `TR::RawAllocator`, `PERSISTENT_NEW` and the persistent allocator behind the log map are memory plumbing and are not modelled.
- `TR_ASSERT`s become preconditions:
  - the shape assumed of a symbol line, stated by `Offsets.Formatted`;
  - non-null list arguments for `RegionMemoryLog`;
  - a non-null head behind a non-null tail, implied by a well-formed list.
- `Regions.Region.Destroy` requires a well-formed chain and list rather than the full `Valid()`. It does not state what the destroyers themselves do, since they are foreign code.
- `Regions.Region.Destroy` does not state in its contract that the destroyers run before any segment is unlinked or given back. A destroyer is only an id in the model, so that order cannot be observed in the final state. The order is in the body, where `RunDestroyers` comes before `FreeSegmentsAndLog`.
- `Regions.Region.Allocate` ignores the `hint` argument, which the source also ignores.
- The iteration order of `std::unordered_map` is not modelled. The print methods return the order they took, and prove that it lists each key exactly once.

## Findings

| source | as written | input that shows it | evidently intended | confidence | as-written member | corrected member |
|---|---|---|---|---|---|---|
| compiler/env/RegionLog.hpp:162-166 | inserting into a non-empty list sets `target->_prev` and `*tail` but never `(*tail)->_next` | two inserts into an empty list: the head's `_next` stays null, so a walk from the head never reaches the second log | the old tail's `_next` is set to target, as `RegionLog.cpp:67` does | high; not executed | RegionLogs.RegionLog.HeaderListInsert, RegionLogs.HeaderInsertLosesSecond | RegionLogs.RegionLog.ListInsert |
