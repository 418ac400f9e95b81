/**
  `RegionMemoryLog`: the second copy of the per-region diagnostic record,
  with a stack/heap flag, its own creation-trace capture and accumulation
  primitives, and its own intrusive doubly-linked list whose operations
  insist on non-null arguments.
 */
module RegionMemoryLogs {

  import opened Words
  import opened Traces
  import opened Reports
  import opened Offsets
  import opened LogReports

  /** `RegionMemoryLog` looks for `(+0x` after the executable name. */
  const Opener: string := "(+0x"

  /** The non-link state of a log, as one value. */
  datatype LogData = LogData(
    isStack: bool,
    regionTrace: RegionBacktrace,
    startTime: Int32,
    endTime: Int32,
    startBytesAllocated: SizeT,
    endBytesAllocated: SizeT,
    counters: seq<SizeT>,
    allocMap: map<AllocEntry, SizeT>)

  class RegionMemoryLog {
    var isStack: bool
    var regionTrace: RegionBacktrace
    var startTime: Int32
    var endTime: Int32
    var startBytesAllocated: SizeT
    var endBytesAllocated: SizeT
    var bytesSegmentProviderAllocated: SizeT
    var bytesSegmentProviderFreed: SizeT
    var bytesSegmentProviderInUseAllocated: SizeT
    var bytesSegmentProviderInUseFreed: SizeT
    var bytesSegmentProviderRealInUseAllocated: SizeT
    var bytesSegmentProviderRealInUseFreed: SizeT
    var prev: RegionMemoryLog?
    var next: RegionMemoryLog?
    /** Cumulative bytes per allocation call site. */
    var allocMap: map<AllocEntry, SizeT>
    /** Set once the destructor has run. */
    ghost var destroyed: bool

    /**
      A log for a region created at `startTime` when the provider had
      handed out `startBytesAllocated` bytes.  `frames` is what
      `unw_backtrace` captures: one frame more for a stack region, whose
      constructor runs inside a wrapper, so the creation trace starts at
      frame 2 for a stack region and at frame 1 otherwise.  Every counter
      is 0, the end snapshot is 0 and there are no neighbours.  The end
      time is left unset, as the constructor leaves it.
     */
    constructor (startTime: Int32, startBytesAllocated: SizeT, isStack: bool, frames: seq<Address>)
      requires |frames| == RegionBacktraceDepth + (if isStack then 3 else 2)
      ensures this.startTime == startTime && this.startBytesAllocated == startBytesAllocated
      ensures this.isStack == isStack
      ensures regionTrace == (if isStack then frames[2..5] else frames[1..4])
      ensures Counters() == [0, 0, 0, 0, 0, 0] && endBytesAllocated == 0
      ensures prev == null && next == null
      ensures allocMap == map[] && !destroyed
    {
      bytesSegmentProviderAllocated := 0;
      bytesSegmentProviderFreed := 0;
      bytesSegmentProviderInUseAllocated := 0;
      bytesSegmentProviderInUseFreed := 0;
      bytesSegmentProviderRealInUseAllocated := 0;
      bytesSegmentProviderRealInUseFreed := 0;
      this.startBytesAllocated := 0;
      endBytesAllocated := 0;
      prev := null;
      next := null;
      allocMap := map[];
      destroyed := false;
      this.startTime := startTime;
      this.startBytesAllocated := startBytesAllocated;
      this.isStack := isStack;
      if isStack {
        regionTrace := frames[2..2 + RegionBacktraceDepth];
      } else {
        regionTrace := frames[1..1 + RegionBacktraceDepth];
      }
    }

    /** The six provider counters in report order. */
    function Counters(): (r: seq<SizeT>)
      reads this
      ensures |r| == 6
    {
      [bytesSegmentProviderAllocated, bytesSegmentProviderFreed,
       bytesSegmentProviderInUseAllocated, bytesSegmentProviderInUseFreed,
       bytesSegmentProviderRealInUseAllocated, bytesSegmentProviderRealInUseFreed]
    }

    function Data(): LogData
      reads this
    {
      LogData(isStack, regionTrace, startTime, endTime, startBytesAllocated,
              endBytesAllocated, Counters(), allocMap)
    }

    /** `S` for a stack region, `H` otherwise. */
    function Marker(): (c: char)
      reads this
      ensures c == 'H' || c == 'S'
      ensures c == 'S' <==> isStack
    {
      if isStack then 'S' else 'H'
    }

    /**
      The numbers of the header line in print order: the reserved 0, the
      start and end times, the six counters, the start and end byte
      snapshots.
     */
    function HeaderFields(): (r: seq<int>)
      reads this
      ensures |r| == 11 && r[0] == 0 && r[1] == startTime && r[2] == endTime
      ensures r[3..9] == Counters()
      ensures r[9] == startBytesAllocated && r[10] == endBytesAllocated
    {
      [0, startTime, endTime] + Counters() + [startBytesAllocated, endBytesAllocated]
    }

    /** What `printRegionMemoryLog` writes when the map is iterated in `order`. */
    ghost predicate IsReport(text: string, symbolize: Address -> string, exe: string)
      requires AllFormatted(symbolize, exe, Opener)
      reads this
    {
      exists order :: Rendered(text, order, symbolize, exe)
    }

    /** `text` is the report with the map iterated in `order`. */
    ghost predicate Rendered(text: string, order: seq<AllocEntry>, symbolize: Address -> string, exe: string)
      requires AllFormatted(symbolize, exe, Opener)
      reads this
    {
      Enumerates(order, allocMap.Keys) &&
      text == Report(Marker(), HeaderFields(), regionTrace, allocMap, order, symbolize, exe, Opener)
    }

    /**
      `printRegionMemoryLog`: the header line, the offsets of the creation
      trace, then one line per call site of the allocation map, in the
      order `order` that the map is iterated.  `symbolize` stands for
      `backtrace_symbols` and `exe` for the target executable's name.
     */
    method Print(symbolize: Address -> string, exe: string) returns (text: string, order: seq<AllocEntry>)
      requires AllFormatted(symbolize, exe, Opener)
      ensures Enumerates(order, allocMap.Keys)
      ensures text == Report(Marker(), HeaderFields(), regionTrace, allocMap, order, symbolize, exe, Opener)
    {
      text := HeaderLine(Marker(), HeaderFields());
      var traceText := PrintTrace(regionTrace, symbolize, exe, Opener);
      text := text + traceText + "\n";
      var sites;
      sites, order := PrintCallsites(allocMap, symbolize, exe, Opener);
      text := text + sites;
    }

    /** `accumulateMemoryIncrease`: add the growth deltas to the `*Allocated` counters. */
    method AccumulateMemoryIncrease(deltaBytesAllocated: SizeT, deltaBytesInUse: SizeT, deltaRealInUse: SizeT)
      modifies this
      ensures Counters() == Increased(old(Counters()), deltaBytesAllocated, deltaBytesInUse, deltaRealInUse)
      ensures isStack == old(isStack) && regionTrace == old(regionTrace) && allocMap == old(allocMap)
      ensures startTime == old(startTime) && endTime == old(endTime)
      ensures startBytesAllocated == old(startBytesAllocated) && endBytesAllocated == old(endBytesAllocated)
      ensures prev == old(prev) && next == old(next) && destroyed == old(destroyed)
    {
      bytesSegmentProviderAllocated := AddSize(bytesSegmentProviderAllocated, deltaBytesAllocated);
      bytesSegmentProviderInUseAllocated := AddSize(bytesSegmentProviderInUseAllocated, deltaBytesInUse);
      bytesSegmentProviderRealInUseAllocated := AddSize(bytesSegmentProviderRealInUseAllocated, deltaRealInUse);
    }

    /** `accumulateMemoryRelease`: add the release deltas to the `*Freed` counters. */
    method AccumulateMemoryRelease(freedBytesAllocated: SizeT, freedBytesInUse: SizeT, freedRealBytesInUse: SizeT)
      modifies this
      ensures Counters() == Released(old(Counters()), freedBytesAllocated, freedBytesInUse, freedRealBytesInUse)
      ensures isStack == old(isStack) && regionTrace == old(regionTrace) && allocMap == old(allocMap)
      ensures startTime == old(startTime) && endTime == old(endTime)
      ensures startBytesAllocated == old(startBytesAllocated) && endBytesAllocated == old(endBytesAllocated)
      ensures prev == old(prev) && next == old(next) && destroyed == old(destroyed)
    {
      bytesSegmentProviderFreed := AddSize(bytesSegmentProviderFreed, freedBytesAllocated);
      bytesSegmentProviderInUseFreed := AddSize(bytesSegmentProviderInUseFreed, freedBytesInUse);
      bytesSegmentProviderRealInUseFreed := AddSize(bytesSegmentProviderRealInUseFreed, freedRealBytesInUse);
    }

    /** The two stores that put `target` behind `last`; nothing else in either log changes. */
    static method LinkAfter(last: RegionMemoryLog, target: RegionMemoryLog)
      requires last != target
      modifies last, target
      ensures last.next == target && target.prev == last
      ensures last.prev == old(last.prev) && target.next == old(target.next)
      ensures last.Data() == old(last.Data()) && target.Data() == old(target.Data())
      ensures last.destroyed == old(last.destroyed) && target.destroyed == old(target.destroyed)
    {
      last.next := target;
      target.prev := last;
    }

    /**
      `regionMemoryLogListInsert`: append `target` at the tail of the
      list whose head and tail slots `list` stands for.  The slots and
      the target must be non-null, and a non-null tail comes with a
      non-null head.
     */
    static method ListInsert(list: RegionMemoryLogList, target: RegionMemoryLog)
      requires list.Valid()
      requires target !in list.Nodes && target.prev == null && target.next == null
      modifies list, target, list.tail
      ensures list.Valid() && list.Nodes == old(list.Nodes) + [target] && list.tail == target
      ensures old(list.tail) == null ==> list.head == target && target.prev == null
      ensures old(list.tail) != null ==>
        list.head == old(list.head) && old(list.tail).next == target && target.prev == old(list.tail)
      ensures target.Data() == old(target.Data())
      ensures old(list.tail) != null ==>
        old(list.tail).Data() == old(list.tail.Data()) && old(list.tail).destroyed == old(list.tail.destroyed)
    {
      if list.tail == null {
        StartList(list, target);
      } else {
        assert list.head != null;
        AppendBehind(list, target);
      }
    }

    /** The empty case of `regionMemoryLogListInsert`: `target` becomes head and tail. */
    static method StartList(list: RegionMemoryLogList, target: RegionMemoryLog)
      requires list.Valid() && list.tail == null
      requires target.prev == null && target.next == null
      modifies list
      ensures list.Valid() && list.Nodes == old(list.Nodes) + [target]
      ensures list.head == target && list.tail == target
    {
      list.head := target;
      list.tail := target;
      list.Nodes := [target];
      list.Pos := list.Pos[target := 0];
    }

    /** The non-empty case of `regionMemoryLogListInsert`: link `target` behind the tail. */
    static method AppendBehind(list: RegionMemoryLogList, target: RegionMemoryLog)
      requires list.Valid() && list.tail != null
      requires target !in list.Nodes && target.prev == null && target.next == null
      modifies list, target, list.tail
      ensures list.Valid() && list.Nodes == old(list.Nodes) + [target]
      ensures list.tail == target && list.head == old(list.head)
      ensures old(list.tail).next == target && target.prev == old(list.tail)
      ensures target.Data() == old(target.Data())
      ensures old(list.tail).Data() == old(list.tail.Data()) && old(list.tail).destroyed == old(list.tail.destroyed)
    {
      ghost var nodes := list.Nodes;
      var last := list.tail;
      LinkAfter(last, target);
      list.tail := target;
      list.Pos := list.Pos[target := |nodes|];
      list.Nodes := nodes + [target];
      forall i | 0 <= i < |nodes| - 1
        ensures nodes[i].next == nodes[i + 1] && nodes[i + 1].prev == nodes[i]
      {
        assert old(nodes[i].next) == nodes[i + 1] && old(nodes[i + 1].prev) == nodes[i];
      }
      AppendedValid(list, nodes, target);
    }

    /**
      `regionMemoryLogListRemove`: unlink `target` from the list, relink
      its neighbours to each other, clear its own links and destroy it.
      The list slots and the target must be non-null.  A target that is
      not on the list must be unlinked; removing it then changes no list.
     */
    static method ListRemove(list: RegionMemoryLogList, target: RegionMemoryLog)
      requires list.Valid()
      requires target in list.Nodes || (target.prev == null && target.next == null)
      modifies list, target, target.prev, target.next
      ensures list.Valid() && target.prev == null && target.next == null && target.destroyed
      ensures target in old(list.Nodes) ==>
        list.Nodes == old(list.Nodes)[..old(list.IndexOf(target))] + old(list.Nodes)[old(list.IndexOf(target)) + 1..]
      ensures target !in old(list.Nodes) ==>
        list.Nodes == old(list.Nodes) && list.head == old(list.head) && list.tail == old(list.tail)
      ensures old(list.head) == target && old(list.tail) == target ==>
        list.head == null && list.tail == null
      ensures old(list.head) == target && old(list.tail) != target ==>
        list.head == old(target.next) && list.tail == old(list.tail)
      ensures old(list.tail) == target && old(list.head) != target ==>
        list.tail == old(target.prev) && list.head == old(list.head)
      ensures old(list.head) != target && old(list.tail) != target ==>
        list.head == old(list.head) && list.tail == old(list.tail)
      ensures old(target.prev) != null ==> old(target.prev).next == old(target.next)
      ensures old(target.next) != null ==> old(target.next).prev == old(target.prev)
      ensures old(target.prev) != null ==>
        old(target.prev).Data() == old(target.prev.Data()) && old(target.prev).destroyed == old(target.prev.destroyed)
      ensures old(target.next) != null ==>
        old(target.next).Data() == old(target.next.Data()) && old(target.next).destroyed == old(target.next.destroyed)
    {
      ghost var k := if target in list.Nodes then list.IndexOf(target) else -1;
      ghost var nodes, pos := list.Nodes, list.Pos;
      var before, after := target.prev, target.next;
      if k >= 0 {
        assert nodes[k] == target && pos[target] == k;
        assert before == (if k == 0 then null else nodes[k - 1]);
        assert after == (if k + 1 == |nodes| then null else nodes[k + 1]);
        assert before != null ==> pos[before] == k - 1;
        assert after != null ==> pos[after] == k + 1;
      } else {
        assert before == null && after == null;
      }
      Detach(list, target, k);
      if k >= 0 {
        RelinkedValid(list, nodes, pos, k);
      }
    }

    /**
      `printRegionMemoryLogList`: print every log from `head` on, following
      `next`.  From the head of a well-formed list this prints each log
      of the list once, head to tail.
     */
    static method PrintList(head: RegionMemoryLog?, ghost list: RegionMemoryLogList, symbolize: Address -> string, exe: string)
      returns (text: string, reports: seq<string>)
      requires list.Valid() && head == list.head
      requires AllFormatted(symbolize, exe, Opener)
      ensures |reports| == |list.Nodes| && text == Concat(reports)
      ensures forall i :: 0 <= i < |list.Nodes| ==> list.Nodes[i].IsReport(reports[i], symbolize, exe)
    {
      text := "";
      reports := [];
      var node := head;
      ghost var i := 0;
      ghost var orders: seq<seq<AllocEntry>> := [];
      while node != null
        invariant 0 <= i <= |list.Nodes|
        invariant node == (if i < |list.Nodes| then list.Nodes[i] else null)
        invariant |reports| == i && |orders| == i && text == Concat(reports)
        invariant forall k :: 0 <= k < i ==> list.Nodes[k].Rendered(reports[k], orders[k], symbolize, exe)
        decreases |list.Nodes| - i
      {
        list.NextOf(i);
        var one, order := node.Print(symbolize, exe);
        ConcatAppend(reports, one);
        text := text + one;
        reports := reports + [one];
        orders := orders + [order];
        node := node.next;
        i := i + 1;
      }
      forall k | 0 <= k < |list.Nodes|
        ensures list.Nodes[k].IsReport(reports[k], symbolize, exe)
      {
        assert list.Nodes[k].Rendered(reports[k], orders[k], symbolize, exe);
      }
    }

    /** Both halves of a removal, one after the other. */
    static method Detach(list: RegionMemoryLogList, target: RegionMemoryLog, ghost k: int)
      requires k < |list.Nodes| && (k >= 0 ==> list.Nodes[k] == target)
      requires k < 0 ==> target !in list.Nodes && target.prev == null && target.next == null
      requires forall i :: 0 <= i < |list.Nodes| ==> list.Nodes[i] in list.Pos && list.Pos[list.Nodes[i]] == i
      requires forall i :: 0 <= i < |list.Nodes| - 1 ==>
        list.Nodes[i].next == list.Nodes[i + 1] && list.Nodes[i + 1].prev == list.Nodes[i]
      requires list.Nodes != [] ==> list.Nodes[0].prev == null && list.Nodes[|list.Nodes| - 1].next == null
      requires k >= 0 ==>
        target.prev == (if k == 0 then null else list.Nodes[k - 1]) &&
        target.next == (if k + 1 == |list.Nodes| then null else list.Nodes[k + 1])
      modifies list, target, target.prev, target.next
      ensures k < 0 ==> list.Nodes == old(list.Nodes) && list.Pos == old(list.Pos)
      ensures k >= 0 ==>
        list.Nodes == old(list.Nodes)[..k] + old(list.Nodes)[k + 1..] && list.Pos == Shifted(old(list.Pos), k)
      ensures old(list.head) == target && old(list.tail) == target ==>
        list.head == null && list.tail == null
      ensures old(list.head) == target && old(list.tail) != target ==>
        list.head == old(target.next) && list.tail == old(list.tail)
      ensures old(list.tail) == target && old(list.head) != target ==>
        list.tail == old(target.prev) && list.head == old(list.head)
      ensures old(list.head) != target && old(list.tail) != target ==>
        list.head == old(list.head) && list.tail == old(list.tail)
      ensures target.prev == null && target.next == null && target.destroyed
      ensures old(target.prev) != null ==>
        old(target.prev).next == old(target.next) && old(target.prev).prev == old(target.prev.prev)
      ensures old(target.next) != null ==>
        old(target.next).prev == old(target.prev) && old(target.next).next == old(target.next.next)
      ensures old(target.prev) != null ==>
        old(target.prev).Data() == old(target.prev.Data()) && old(target.prev).destroyed == old(target.prev.destroyed)
      ensures old(target.next) != null ==>
        old(target.next).Data() == old(target.next.Data()) && old(target.next).destroyed == old(target.next.destroyed)
      ensures forall i :: 0 <= i < |old(list.Nodes)| - 1 && i + 1 != k && i != k ==>
        old(list.Nodes)[i].next == old(list.Nodes)[i + 1] && old(list.Nodes)[i + 1].prev == old(list.Nodes)[i]
      ensures old(list.Nodes) != [] && k != 0 ==> old(list.Nodes)[0].prev == null
      ensures old(list.Nodes) != [] && k + 1 != |old(list.Nodes)| ==>
        old(list.Nodes)[|old(list.Nodes)| - 1].next == null
    {
      ghost var nodes, pos := list.Nodes, list.Pos;
      assert k >= 0 ==> pos[target] == k;
      assert nodes != [] ==> pos[nodes[0]] == 0 && pos[nodes[|nodes| - 1]] == |nodes| - 1;
      MoveSlots(list, target, k);
      Unlink(target);
      forall i | 0 <= i < |nodes| - 1 && i + 1 != k && i != k
        ensures nodes[i].next == nodes[i + 1] && nodes[i + 1].prev == nodes[i]
      {
        assert old(nodes[i].next) == nodes[i + 1] && old(nodes[i + 1].prev) == nodes[i];
        assert pos[nodes[i]] == i && pos[nodes[i + 1]] == i + 1;
      }
    }

    /**
      The first half of a removal, by cases: the only node, the head, the
      tail, or a node in the middle (which leaves both slots alone).
     */
    static method MoveSlots(list: RegionMemoryLogList, target: RegionMemoryLog, ghost k: int)
      requires k < |list.Nodes| && (k >= 0 ==> list.Nodes[k] == target)
      modifies list
      ensures k < 0 ==> list.Nodes == old(list.Nodes) && list.Pos == old(list.Pos)
      ensures k >= 0 ==>
        list.Nodes == old(list.Nodes)[..k] + old(list.Nodes)[k + 1..] && list.Pos == Shifted(old(list.Pos), k)
      ensures old(list.head) == target && old(list.tail) == target ==>
        list.head == null && list.tail == null
      ensures old(list.head) == target && old(list.tail) != target ==>
        list.head == target.next && list.tail == old(list.tail)
      ensures old(list.tail) == target && old(list.head) != target ==>
        list.tail == target.prev && list.head == old(list.head)
      ensures old(list.head) != target && old(list.tail) != target ==>
        list.head == old(list.head) && list.tail == old(list.tail)
    {
      if list.head == target && list.tail == target {
        list.head := null;
        list.tail := null;
      } else if list.head == target {
        list.head := target.next;
      } else if list.tail == target {
        list.tail := target.prev;
      }
      if k >= 0 {
        list.Nodes := list.Nodes[..k] + list.Nodes[k + 1..];
        list.Pos := Shifted(list.Pos, k);
      }
    }

    /**
      The second half of a removal: join the target's neighbours to each
      other, clear the target's own links and run its destructor.
     */
    static method Unlink(target: RegionMemoryLog)
      requires target.prev != target && target.next != target
      requires target.prev == target.next ==> target.prev == null
      modifies target, target.prev, target.next
      ensures target.prev == null && target.next == null && target.destroyed
      ensures old(target.prev) != null ==>
        old(target.prev).next == old(target.next) && old(target.prev).prev == old(target.prev.prev)
      ensures old(target.next) != null ==>
        old(target.next).prev == old(target.prev) && old(target.next).next == old(target.next.next)
      ensures old(target.prev) != null ==>
        old(target.prev).Data() == old(target.prev.Data()) && old(target.prev).destroyed == old(target.prev.destroyed)
      ensures old(target.next) != null ==>
        old(target.next).Data() == old(target.next.Data()) && old(target.next).destroyed == old(target.next.destroyed)
    {
      var before, after := target.prev, target.next;
      if after != null {
        after.prev := before;
      }
      if before != null {
        before.next := after;
      }
      target.prev := null;
      target.next := null;
      target.destroyed := true;
    }

  }

  /**
    After `target` is linked behind the last of `nodes`, with every other
    link as before, the slots and links describe `nodes + [target]`.
   */
  lemma AppendedValid(list: RegionMemoryLogList, nodes: seq<RegionMemoryLog>, target: RegionMemoryLog)
    requires nodes != [] && list.Nodes == nodes + [target]
    requires forall i :: 0 <= i < |nodes| ==> nodes[i] in list.Pos && list.Pos[nodes[i]] == i
    requires target in list.Pos && list.Pos[target] == |nodes|
    requires list.head == nodes[0] && list.tail == target
    requires nodes[0].prev == null && target.next == null
    requires forall i :: 0 <= i < |nodes| - 1 ==> nodes[i].next == nodes[i + 1] && nodes[i + 1].prev == nodes[i]
    requires nodes[|nodes| - 1].next == target && target.prev == nodes[|nodes| - 1]
    ensures list.Valid()
  {
    assert forall i :: 0 <= i < |nodes| ==> list.Nodes[i] == nodes[i];
  }

  /**
    After `nodes[k]` is unlinked, with its neighbours joined and every
    other link as before, the slots and links describe the list without
    `nodes[k]`.
   */
  lemma RelinkedValid(list: RegionMemoryLogList, nodes: seq<RegionMemoryLog>, pos: map<RegionMemoryLog, int>, k: nat)
    requires k < |nodes|
    requires forall i :: 0 <= i < |nodes| ==> nodes[i] in pos && pos[nodes[i]] == i
    requires list.Pos == Shifted(pos, k)
    requires list.Nodes == nodes[..k] + nodes[k + 1..]
    requires list.head == (if k == 0 then (if |nodes| > 1 then nodes[1] else null) else nodes[0])
    requires list.tail == (if k + 1 == |nodes| then (if k > 0 then nodes[k - 1] else null) else nodes[|nodes| - 1])
    requires forall i :: 0 <= i < |nodes| - 1 && i + 1 != k && i != k ==>
      nodes[i].next == nodes[i + 1] && nodes[i + 1].prev == nodes[i]
    requires k > 0 ==> nodes[k - 1].next == (if k + 1 < |nodes| then nodes[k + 1] else null)
    requires k + 1 < |nodes| ==> nodes[k + 1].prev == (if k > 0 then nodes[k - 1] else null)
    requires k > 0 ==> nodes[0].prev == null
    requires k + 1 < |nodes| ==> nodes[|nodes| - 1].next == null
    ensures list.Valid()
  {
    var rest := list.Nodes;
    assert forall i :: 0 <= i < |rest| ==> rest[i] == (if i < k then nodes[i] else nodes[i + 1]);
  }

  /** Positions after the node at position `k` is taken out. */
  ghost function Shifted(pos: map<RegionMemoryLog, int>, k: int): map<RegionMemoryLog, int>
  {
    map n | n in pos :: if pos[n] > k then pos[n] - 1 else pos[n]
  }

  /**
    The head and tail slots of a log list.  `Nodes` is the list in
    order from head to tail.
   */
  class RegionMemoryLogList {
    var head: RegionMemoryLog?
    var tail: RegionMemoryLog?
    ghost var Nodes: seq<RegionMemoryLog>
    /** The position of each node in `Nodes`; it makes the nodes distinct. */
    ghost var Pos: map<RegionMemoryLog, int>

    /** Empty slots: head and tail both null. */
    constructor ()
      ensures Valid() && Nodes == [] && head == null && tail == null
    {
      head := null;
      tail := null;
      Nodes := [];
      Pos := map[];
    }

    /**
      The slots and the links describe `Nodes`: no node twice, head and
      tail at the ends (both null when empty), and each node's `prev` and
      `next` its neighbours in `Nodes`.
     */
    ghost predicate Valid()
      reads this, Nodes`prev, Nodes`next
    {
      (forall i :: 0 <= i < |Nodes| ==> Nodes[i] in Pos && Pos[Nodes[i]] == i) &&
      (Nodes == [] ==> head == null && tail == null) &&
      (Nodes != [] ==>
        head == Nodes[0] && tail == Nodes[|Nodes| - 1] &&
        Nodes[0].prev == null && Nodes[|Nodes| - 1].next == null) &&
      (forall i :: 0 <= i < |Nodes| - 1 ==> Nodes[i].next == Nodes[i + 1] && Nodes[i + 1].prev == Nodes[i])
    }

    ghost function IndexOf(x: RegionMemoryLog): (k: nat)
      requires x in Nodes
      reads this
      ensures k < |Nodes| && Nodes[k] == x
    {
      var k :| 0 <= k < |Nodes| && Nodes[k] == x; k
    }

    /** From the node at `i`, `next` leads to the node at `i + 1`, or to null at the end. */
    lemma NextOf(i: int)
      requires Valid() && 0 <= i < |Nodes|
      ensures Nodes[i].next == (if i + 1 < |Nodes| then Nodes[i + 1] else null)
    {
    }
  }
}
