/**
  `RegionLog`: the diagnostic record a region keeps while the segment
  provider collects region statistics, and the intrusive doubly-linked
  list of such records whose head and tail the provider owns.
 */
module RegionLogs {

  import opened Words
  import opened Traces
  import opened Reports
  import opened Offsets
  import opened LogReports

  /** `RegionLog` looks for `(` after the executable name. */
  const Opener: string := "("

  /** The non-link state of a log, as one value. */
  datatype LogData = LogData(
    isHeap: bool,
    regionTrace: RegionBacktrace,
    startTime: Int32,
    endTime: Int32,
    bytesAllocated: SizeT,
    startBytesAllocated: SizeT,
    endBytesAllocated: SizeT,
    counters: seq<SizeT>,
    allocMap: map<AllocEntry, SizeT>)

  /** The heap flag, creation trace, start time, start bytes and call-site map of a log. */
  type LogOrigin = (bool, RegionBacktrace, Int32, SizeT, map<AllocEntry, SizeT>)

  class RegionLog {
    var isHeap: bool
    var regionTrace: RegionBacktrace
    var startTime: Int32
    var endTime: Int32
    var bytesAllocated: SizeT
    var startBytesAllocated: SizeT
    var endBytesAllocated: SizeT
    var bytesSegmentProviderAllocated: SizeT
    var bytesSegmentProviderFreed: SizeT
    var bytesSegmentProviderInUseAllocated: SizeT
    var bytesSegmentProviderInUseFreed: SizeT
    var bytesSegmentProviderRealInUseAllocated: SizeT
    var bytesSegmentProviderRealInUseFreed: SizeT
    var prev: RegionLog?
    var next: RegionLog?
    /** Cumulative rounded bytes per allocation call site. */
    var allocMap: map<AllocEntry, SizeT>
    /** Set once the destructor has run. */
    ghost var destroyed: bool

    /**
      A fresh log: start time -2, end time -1, every byte counter 0, no
      neighbours, an empty call-site map.  `isHeap` and the creation
      trace are left for the creating region to fill in.
     */
    constructor ()
      ensures startTime == -2 && endTime == -1
      ensures bytesAllocated == 0 && startBytesAllocated == 0 && endBytesAllocated == 0
      ensures Counters() == [0, 0, 0, 0, 0, 0]
      ensures prev == null && next == null
      ensures allocMap == map[] && !destroyed
    {
      startTime := -2;
      endTime := -1;
      bytesAllocated := 0;
      startBytesAllocated := 0;
      endBytesAllocated := 0;
      bytesSegmentProviderAllocated := 0;
      bytesSegmentProviderFreed := 0;
      bytesSegmentProviderInUseAllocated := 0;
      bytesSegmentProviderInUseFreed := 0;
      bytesSegmentProviderRealInUseAllocated := 0;
      bytesSegmentProviderRealInUseFreed := 0;
      prev := null;
      next := null;
      allocMap := map[];
      destroyed := false;
      regionTrace := [0, 0, 0];
    }

    /**
      The six provider counters in report order: allocated, freed,
      in-use allocated, in-use freed, real-in-use allocated, real-in-use
      freed.
     */
    function Counters(): (r: seq<SizeT>)
      reads this`bytesSegmentProviderAllocated, this`bytesSegmentProviderFreed
      reads this`bytesSegmentProviderInUseAllocated, this`bytesSegmentProviderInUseFreed
      reads this`bytesSegmentProviderRealInUseAllocated, this`bytesSegmentProviderRealInUseFreed
      ensures |r| == 6
    {
      [bytesSegmentProviderAllocated, bytesSegmentProviderFreed,
       bytesSegmentProviderInUseAllocated, bytesSegmentProviderInUseFreed,
       bytesSegmentProviderRealInUseAllocated, bytesSegmentProviderRealInUseFreed]
    }

    /**
      What a log records when its region is created and while it serves:
      the heap flag, the creation trace, the start time and start bytes,
      and the call-site map.  Teardown leaves these as they are.
     */
    function Origin(): LogOrigin
      reads this`isHeap, this`regionTrace, this`startTime, this`startBytesAllocated, this`allocMap
    {
      (isHeap, regionTrace, startTime, startBytesAllocated, allocMap)
    }

    function Data(): LogData
      reads this
    {
      LogData(isHeap, regionTrace, startTime, endTime, bytesAllocated,
              startBytesAllocated, endBytesAllocated, Counters(), allocMap)
    }

    /** `H` for a heap region, `S` for a stack region. */
    function Marker(): (c: char)
      reads this
      ensures c == 'H' || c == 'S'
      ensures c == 'H' <==> isHeap
    {
      if isHeap then 'H' else 'S'
    }

    /**
      The numbers of the header line in print order: the reserved 0, the
      start and end times, the six counters, the start and end byte
      snapshots.
     */
    function HeaderFields(): (r: seq<int>)
      reads this
      ensures |r| == 11 && r[0] == 0 && r[1] == startTime && r[2] == endTime
      ensures r[3..9] == Counters()
      ensures r[9] == startBytesAllocated && r[10] == endBytesAllocated
    {
      [0, startTime, endTime] + Counters() + [startBytesAllocated, endBytesAllocated]
    }

    /** What `printRegionLog` writes when the map is iterated in `order`. */
    ghost predicate IsReport(text: string, symbolize: Address -> string, exe: string)
      requires AllFormatted(symbolize, exe, Opener)
      reads this
    {
      exists order :: Rendered(text, order, symbolize, exe)
    }

    /** `text` is the report with the map iterated in `order`. */
    ghost predicate Rendered(text: string, order: seq<AllocEntry>, symbolize: Address -> string, exe: string)
      requires AllFormatted(symbolize, exe, Opener)
      reads this
    {
      Enumerates(order, allocMap.Keys) &&
      text == Report(Marker(), HeaderFields(), regionTrace, allocMap, order, symbolize, exe, Opener)
    }

    /**
      `printRegionLog`: the header line, the offsets of the creation
      trace, then one line per call site of the allocation map.  The map
      is iterated in an unspecified order; `order` is the one taken.
      `symbolize` stands for `backtrace_symbols` and `exe` for the target
      executable's name.
     */
    method Print(symbolize: Address -> string, exe: string) returns (text: string, order: seq<AllocEntry>)
      requires AllFormatted(symbolize, exe, Opener)
      ensures Enumerates(order, allocMap.Keys)
      ensures text == Report(Marker(), HeaderFields(), regionTrace, allocMap, order, symbolize, exe, Opener)
    {
      text := HeaderLine(Marker(), HeaderFields());
      var traceText := PrintTrace(regionTrace, symbolize, exe, Opener);
      text := text + traceText + "\n";
      var sites;
      sites, order := PrintCallsites(allocMap, symbolize, exe, Opener);
      text := text + sites;
    }

    /** The two stores that put `target` behind `last`; nothing else in either log changes. */
    static method LinkAfter(last: RegionLog, target: RegionLog)
      requires last != target
      modifies last, target
      ensures last.next == target && target.prev == last
      ensures last.prev == old(last.prev) && target.next == old(target.next)
      ensures last.Data() == old(last.Data()) && target.Data() == old(target.Data())
      ensures last.destroyed == old(last.destroyed) && target.destroyed == old(target.destroyed)
    {
      last.next := target;
      target.prev := last;
    }

    /**
      `regionLogListInsert`: append `target` at the tail of the list whose
      head and tail slots `list` stands for.  A null `list` (null head or
      tail slot) or a null target leaves everything as it was.
     */
    static method ListInsert(list: RegionLogList?, target: RegionLog?)
      requires list != null ==> list.Valid()
      requires list != null && target != null ==>
        target !in list.Nodes && target.prev == null && target.next == null
      modifies list, target, if list == null then null else list.tail
      ensures list == null || target == null ==>
        (list != null ==> unchanged(list)) && (target != null ==> unchanged(target))
      ensures list != null && target != null ==>
        list.Valid() && list.Nodes == old(list.Nodes) + [target]
      ensures list != null && target != null ==> list.tail == target
      ensures list != null && target != null && old(list.tail) == null ==>
        list.head == target && target.prev == null
      ensures list != null && target != null && old(list.tail) != null ==>
        list.head == old(list.head) && old(list.tail).next == target &&
        target.prev == old(list.tail)
      ensures target != null ==> target.Data() == old(target.Data())
      ensures list != null && old(list.tail) != null ==>
        old(list.tail).Data() == old(list.tail.Data()) && old(list.tail).destroyed == old(list.tail.destroyed)
    {
      if target == null || list == null {
        return;
      }
      if list.tail == null {
        StartList(list, target);
      } else {
        AppendBehind(list, target);
      }
    }

    /** The empty case of `regionLogListInsert`: `target` becomes head and tail. */
    static method StartList(list: RegionLogList, target: RegionLog)
      requires list.Valid() && list.tail == null
      requires target.prev == null && target.next == null
      modifies list
      ensures list.Valid() && list.Nodes == old(list.Nodes) + [target]
      ensures list.head == target && list.tail == target
    {
      list.head := target;
      list.tail := target;
      list.Nodes := [target];
      list.Pos := list.Pos[target := 0];
    }

    /** The non-empty case of `regionLogListInsert`: link `target` behind the tail. */
    static method AppendBehind(list: RegionLogList, target: RegionLog)
      requires list.Valid() && list.tail != null
      requires target !in list.Nodes && target.prev == null && target.next == null
      modifies list, target, list.tail
      ensures list.Valid() && list.Nodes == old(list.Nodes) + [target]
      ensures list.tail == target && list.head == old(list.head)
      ensures old(list.tail).next == target && target.prev == old(list.tail)
      ensures target.Data() == old(target.Data())
      ensures old(list.tail).Data() == old(list.tail.Data()) && old(list.tail).destroyed == old(list.tail.destroyed)
    {
      ghost var nodes := list.Nodes;
      var last := list.tail;
      LinkAfter(last, target);
      list.tail := target;
      list.Pos := list.Pos[target := |nodes|];
      list.Nodes := nodes + [target];
      forall i | 0 <= i < |nodes| - 1
        ensures nodes[i].next == nodes[i + 1] && nodes[i + 1].prev == nodes[i]
      {
        assert old(nodes[i].next) == nodes[i + 1] && old(nodes[i + 1].prev) == nodes[i];
      }
      AppendedValid(list, nodes, target);
    }

    /**
      The inline copy of the insert in `RegionLog.hpp`, as written: on an
      empty list `target` becomes head and tail; otherwise `target` points
      back to the tail and becomes the tail, but the old tail's `next` is
      never set, so it still ends the forward chain.
     */
    static method HeaderListInsert(list: RegionLogList, target: RegionLog)
      requires list.tail != target
      modifies list`head, list`tail, target`prev
      ensures list.tail == target
      ensures old(list.tail) == null ==> list.head == target && target.prev == old(target.prev)
      ensures old(list.tail) != null ==>
        list.head == old(list.head) && target.prev == old(list.tail) &&
        old(list.tail).next == old(list.tail.next)
    {
      if list.tail == null {
        list.head := target;
        list.tail := target;
      } else {
        target.prev := list.tail;
        list.tail := target;
      }
    }

    /**
      `regionLogListRemove`: unlink `target` from the list, relink its
      neighbours to each other, clear its own links and destroy it.  A
      null `list` or a null target is a no-op.  A target that is not on
      the list must be unlinked; removing it then changes no list.
     */
    static method ListRemove(list: RegionLogList?, target: RegionLog?)
      requires list != null ==> list.Valid()
      requires list != null && target != null ==>
        target in list.Nodes || (target.prev == null && target.next == null)
      modifies list, target
      modifies if target == null then null else target.prev
      modifies if target == null then null else target.next
      ensures list == null || target == null ==>
        (list != null ==> unchanged(list)) && (target != null ==> unchanged(target))
      ensures list != null && target != null ==>
        list.Valid() && target.prev == null && target.next == null && target.destroyed
      ensures list != null && target != null && target in old(list.Nodes) ==>
        list.Nodes == old(list.Nodes)[..old(list.IndexOf(target))] + old(list.Nodes)[old(list.IndexOf(target)) + 1..]
      ensures list != null && target != null && target !in old(list.Nodes) ==>
        list.Nodes == old(list.Nodes) && list.head == old(list.head) && list.tail == old(list.tail)
      ensures list != null && target != null && old(list.head) == target && old(list.tail) == target ==>
        list.head == null && list.tail == null
      ensures list != null && target != null && old(list.head) == target && old(list.tail) != target ==>
        list.head == old(target.next) && list.tail == old(list.tail)
      ensures list != null && target != null && old(list.tail) == target && old(list.head) != target ==>
        list.tail == old(target.prev) && list.head == old(list.head)
      ensures list != null && target != null && old(list.head) != target && old(list.tail) != target ==>
        list.head == old(list.head) && list.tail == old(list.tail)
      ensures list != null && target != null && old(target.prev) != null ==>
        old(target.prev).next == old(target.next)
      ensures list != null && target != null && old(target.next) != null ==>
        old(target.next).prev == old(target.prev)
      ensures list != null && target != null && old(target.prev) != null ==>
        old(target.prev).Data() == old(target.prev.Data()) && old(target.prev).destroyed == old(target.prev.destroyed)
      ensures list != null && target != null && old(target.next) != null ==>
        old(target.next).Data() == old(target.next.Data()) && old(target.next).destroyed == old(target.next.destroyed)
    {
      if target == null || list == null {
        return;
      }
      RemoveLinked(list, target);
    }

    /** The removal proper, once `list` and `target` are known to be non-null. */
    static method RemoveLinked(list: RegionLogList, target: RegionLog)
      requires list.Valid()
      requires target in list.Nodes || (target.prev == null && target.next == null)
      modifies list, target, target.prev, target.next
      ensures list.Valid() && target.prev == null && target.next == null && target.destroyed
      ensures target in old(list.Nodes) ==>
        list.Nodes == old(list.Nodes)[..old(list.IndexOf(target))] + old(list.Nodes)[old(list.IndexOf(target)) + 1..]
      ensures target !in old(list.Nodes) ==>
        list.Nodes == old(list.Nodes) && list.head == old(list.head) && list.tail == old(list.tail)
      ensures old(list.head) == target && old(list.tail) == target ==>
        list.head == null && list.tail == null
      ensures old(list.head) == target && old(list.tail) != target ==>
        list.head == old(target.next) && list.tail == old(list.tail)
      ensures old(list.tail) == target && old(list.head) != target ==>
        list.tail == old(target.prev) && list.head == old(list.head)
      ensures old(list.head) != target && old(list.tail) != target ==>
        list.head == old(list.head) && list.tail == old(list.tail)
      ensures old(target.prev) != null ==> old(target.prev).next == old(target.next)
      ensures old(target.next) != null ==> old(target.next).prev == old(target.prev)
      ensures old(target.prev) != null ==>
        old(target.prev).Data() == old(target.prev.Data()) && old(target.prev).destroyed == old(target.prev.destroyed)
      ensures old(target.next) != null ==>
        old(target.next).Data() == old(target.next.Data()) && old(target.next).destroyed == old(target.next.destroyed)
    {
      ghost var k := if target in list.Nodes then list.IndexOf(target) else -1;
      ghost var nodes, pos := list.Nodes, list.Pos;
      var before, after := target.prev, target.next;
      if k >= 0 {
        assert nodes[k] == target && pos[target] == k;
        assert before == (if k == 0 then null else nodes[k - 1]);
        assert after == (if k + 1 == |nodes| then null else nodes[k + 1]);
        assert before != null ==> pos[before] == k - 1;
        assert after != null ==> pos[after] == k + 1;
      } else {
        assert before == null && after == null;
      }
      Detach(list, target, k);
      if k >= 0 {
        RelinkedValid(list, nodes, pos, k);
      }
    }

    /**
      `printRegionLogList`: print every log from `head` on, following
      `next`.  From the head of a well-formed list this prints each log
      of the list once, head to tail.
     */
    static method PrintList(head: RegionLog?, ghost list: RegionLogList, symbolize: Address -> string, exe: string)
      returns (text: string, reports: seq<string>)
      requires list.Valid() && head == list.head
      requires AllFormatted(symbolize, exe, Opener)
      ensures |reports| == |list.Nodes| && text == Concat(reports)
      ensures forall i :: 0 <= i < |list.Nodes| ==> list.Nodes[i].IsReport(reports[i], symbolize, exe)
    {
      text := "";
      reports := [];
      var node := head;
      ghost var i := 0;
      ghost var orders: seq<seq<AllocEntry>> := [];
      while node != null
        invariant 0 <= i <= |list.Nodes|
        invariant node == (if i < |list.Nodes| then list.Nodes[i] else null)
        invariant |reports| == i && |orders| == i && text == Concat(reports)
        invariant forall k :: 0 <= k < i ==> list.Nodes[k].Rendered(reports[k], orders[k], symbolize, exe)
        decreases |list.Nodes| - i
      {
        list.NextOf(i);
        var one, order := node.Print(symbolize, exe);
        ConcatAppend(reports, one);
        text := text + one;
        reports := reports + [one];
        orders := orders + [order];
        node := node.next;
        i := i + 1;
      }
      forall k | 0 <= k < |list.Nodes|
        ensures list.Nodes[k].IsReport(reports[k], symbolize, exe)
      {
        assert list.Nodes[k].Rendered(reports[k], orders[k], symbolize, exe);
      }
    }

    /** Both halves of a removal, one after the other. */
    static method Detach(list: RegionLogList, target: RegionLog, ghost k: int)
      requires k < |list.Nodes| && (k >= 0 ==> list.Nodes[k] == target)
      requires k < 0 ==> target !in list.Nodes && target.prev == null && target.next == null
      requires forall i :: 0 <= i < |list.Nodes| ==> list.Nodes[i] in list.Pos && list.Pos[list.Nodes[i]] == i
      requires forall i :: 0 <= i < |list.Nodes| - 1 ==>
        list.Nodes[i].next == list.Nodes[i + 1] && list.Nodes[i + 1].prev == list.Nodes[i]
      requires list.Nodes != [] ==> list.Nodes[0].prev == null && list.Nodes[|list.Nodes| - 1].next == null
      requires k >= 0 ==>
        target.prev == (if k == 0 then null else list.Nodes[k - 1]) &&
        target.next == (if k + 1 == |list.Nodes| then null else list.Nodes[k + 1])
      modifies list, target, target.prev, target.next
      ensures k < 0 ==> list.Nodes == old(list.Nodes) && list.Pos == old(list.Pos)
      ensures k >= 0 ==>
        list.Nodes == old(list.Nodes)[..k] + old(list.Nodes)[k + 1..] && list.Pos == Shifted(old(list.Pos), k)
      ensures old(list.head) == target && old(list.tail) == target ==>
        list.head == null && list.tail == null
      ensures old(list.head) == target && old(list.tail) != target ==>
        list.head == old(target.next) && list.tail == old(list.tail)
      ensures old(list.tail) == target && old(list.head) != target ==>
        list.tail == old(target.prev) && list.head == old(list.head)
      ensures old(list.head) != target && old(list.tail) != target ==>
        list.head == old(list.head) && list.tail == old(list.tail)
      ensures target.prev == null && target.next == null && target.destroyed
      ensures old(target.prev) != null ==>
        old(target.prev).next == old(target.next) && old(target.prev).prev == old(target.prev.prev)
      ensures old(target.next) != null ==>
        old(target.next).prev == old(target.prev) && old(target.next).next == old(target.next.next)
      ensures old(target.prev) != null ==>
        old(target.prev).Data() == old(target.prev.Data()) && old(target.prev).destroyed == old(target.prev.destroyed)
      ensures old(target.next) != null ==>
        old(target.next).Data() == old(target.next.Data()) && old(target.next).destroyed == old(target.next.destroyed)
      ensures forall i :: 0 <= i < |old(list.Nodes)| - 1 && i + 1 != k && i != k ==>
        old(list.Nodes)[i].next == old(list.Nodes)[i + 1] && old(list.Nodes)[i + 1].prev == old(list.Nodes)[i]
      ensures old(list.Nodes) != [] && k != 0 ==> old(list.Nodes)[0].prev == null
      ensures old(list.Nodes) != [] && k + 1 != |old(list.Nodes)| ==>
        old(list.Nodes)[|old(list.Nodes)| - 1].next == null
    {
      ghost var nodes, pos := list.Nodes, list.Pos;
      assert k >= 0 ==> pos[target] == k;
      assert nodes != [] ==> pos[nodes[0]] == 0 && pos[nodes[|nodes| - 1]] == |nodes| - 1;
      MoveSlots(list, target, k);
      Unlink(target);
      forall i | 0 <= i < |nodes| - 1 && i + 1 != k && i != k
        ensures nodes[i].next == nodes[i + 1] && nodes[i + 1].prev == nodes[i]
      {
        assert old(nodes[i].next) == nodes[i + 1] && old(nodes[i + 1].prev) == nodes[i];
        assert pos[nodes[i]] == i && pos[nodes[i + 1]] == i + 1;
      }
    }

    /**
      The first half of a removal, by cases: the only node, the head, the
      tail, or a node in the middle (which leaves both slots alone).
     */
    static method MoveSlots(list: RegionLogList, target: RegionLog, ghost k: int)
      requires k < |list.Nodes| && (k >= 0 ==> list.Nodes[k] == target)
      modifies list
      ensures k < 0 ==> list.Nodes == old(list.Nodes) && list.Pos == old(list.Pos)
      ensures k >= 0 ==>
        list.Nodes == old(list.Nodes)[..k] + old(list.Nodes)[k + 1..] && list.Pos == Shifted(old(list.Pos), k)
      ensures old(list.head) == target && old(list.tail) == target ==>
        list.head == null && list.tail == null
      ensures old(list.head) == target && old(list.tail) != target ==>
        list.head == target.next && list.tail == old(list.tail)
      ensures old(list.tail) == target && old(list.head) != target ==>
        list.tail == target.prev && list.head == old(list.head)
      ensures old(list.head) != target && old(list.tail) != target ==>
        list.head == old(list.head) && list.tail == old(list.tail)
    {
      if list.head == target && list.tail == target {
        list.head := null;
        list.tail := null;
      } else if list.head == target {
        list.head := target.next;
      } else if list.tail == target {
        list.tail := target.prev;
      }
      if k >= 0 {
        list.Nodes := list.Nodes[..k] + list.Nodes[k + 1..];
        list.Pos := Shifted(list.Pos, k);
      }
    }

    /**
      The second half of a removal: join the target's neighbours to each
      other, clear the target's own links and run its destructor.
     */
    static method Unlink(target: RegionLog)
      requires target.prev != target && target.next != target
      requires target.prev == target.next ==> target.prev == null
      modifies target, target.prev, target.next
      ensures target.prev == null && target.next == null && target.destroyed
      ensures old(target.prev) != null ==>
        old(target.prev).next == old(target.next) && old(target.prev).prev == old(target.prev.prev)
      ensures old(target.next) != null ==>
        old(target.next).prev == old(target.prev) && old(target.next).next == old(target.next.next)
      ensures old(target.prev) != null ==>
        old(target.prev).Data() == old(target.prev.Data()) && old(target.prev).destroyed == old(target.prev.destroyed)
      ensures old(target.next) != null ==>
        old(target.next).Data() == old(target.next.Data()) && old(target.next).destroyed == old(target.next.destroyed)
    {
      var before, after := target.prev, target.next;
      if after != null {
        after.prev := before;
      }
      if before != null {
        before.next := after;
      }
      target.prev := null;
      target.next := null;
      target.destroyed := true;
    }

  }

  /**
    Two fresh logs put on an empty list with the header's insert.  The
    second is the tail and points back to the first, but the first, the
    head, has no successor: a walk along `next` from the head visits the
    first log only, where `ListInsert` would visit both.
   */
  method HeaderInsertLosesSecond() returns (list: RegionLogList, first: RegionLog, second: RegionLog)
    ensures list.head == first && list.tail == second && first != second
    ensures second.prev == first && first.next == null
  {
    list := new RegionLogList();
    first := new RegionLog();
    second := new RegionLog();
    RegionLog.HeaderListInsert(list, first);
    RegionLog.HeaderListInsert(list, second);
  }

  /**
    After `target` is linked behind the last of `nodes`, with every other
    link as before, the slots and links describe `nodes + [target]`.
   */
  lemma AppendedValid(list: RegionLogList, nodes: seq<RegionLog>, target: RegionLog)
    requires nodes != [] && list.Nodes == nodes + [target]
    requires forall i :: 0 <= i < |nodes| ==> nodes[i] in list.Pos && list.Pos[nodes[i]] == i
    requires target in list.Pos && list.Pos[target] == |nodes|
    requires list.head == nodes[0] && list.tail == target
    requires nodes[0].prev == null && target.next == null
    requires forall i :: 0 <= i < |nodes| - 1 ==> nodes[i].next == nodes[i + 1] && nodes[i + 1].prev == nodes[i]
    requires nodes[|nodes| - 1].next == target && target.prev == nodes[|nodes| - 1]
    ensures list.Valid()
  {
    assert forall i :: 0 <= i < |nodes| ==> list.Nodes[i] == nodes[i];
  }

  /**
    After `nodes[k]` is unlinked, with its neighbours joined and every
    other link as before, the slots and links describe the list without
    `nodes[k]`.
   */
  lemma RelinkedValid(list: RegionLogList, nodes: seq<RegionLog>, pos: map<RegionLog, int>, k: nat)
    requires k < |nodes|
    requires forall i :: 0 <= i < |nodes| ==> nodes[i] in pos && pos[nodes[i]] == i
    requires list.Pos == Shifted(pos, k)
    requires list.Nodes == nodes[..k] + nodes[k + 1..]
    requires list.head == (if k == 0 then (if |nodes| > 1 then nodes[1] else null) else nodes[0])
    requires list.tail == (if k + 1 == |nodes| then (if k > 0 then nodes[k - 1] else null) else nodes[|nodes| - 1])
    requires forall i :: 0 <= i < |nodes| - 1 && i + 1 != k && i != k ==>
      nodes[i].next == nodes[i + 1] && nodes[i + 1].prev == nodes[i]
    requires k > 0 ==> nodes[k - 1].next == (if k + 1 < |nodes| then nodes[k + 1] else null)
    requires k + 1 < |nodes| ==> nodes[k + 1].prev == (if k > 0 then nodes[k - 1] else null)
    requires k > 0 ==> nodes[0].prev == null
    requires k + 1 < |nodes| ==> nodes[|nodes| - 1].next == null
    ensures list.Valid()
  {
    var rest := list.Nodes;
    assert forall i :: 0 <= i < |rest| ==> rest[i] == (if i < k then nodes[i] else nodes[i + 1]);
  }

  /** Positions after the node at position `k` is taken out. */
  ghost function Shifted(pos: map<RegionLog, int>, k: int): map<RegionLog, int>
  {
    map n | n in pos :: if pos[n] > k then pos[n] - 1 else pos[n]
  }

  /**
    The head and tail slots of a log list.  `Nodes` is the list in
    order from head to tail.
   */
  class RegionLogList {
    var head: RegionLog?
    var tail: RegionLog?
    ghost var Nodes: seq<RegionLog>
    /** The position of each node in `Nodes`; it makes the nodes distinct. */
    ghost var Pos: map<RegionLog, int>

    /** Empty slots: head and tail both null. */
    constructor ()
      ensures Valid() && Nodes == [] && head == null && tail == null
    {
      head := null;
      tail := null;
      Nodes := [];
      Pos := map[];
    }

    /**
      The slots and the links describe `Nodes`: no node twice, head and
      tail at the ends (both null when empty), and each node's `prev` and
      `next` its neighbours in `Nodes`.
     */
    ghost predicate Valid()
      reads this, Nodes`prev, Nodes`next
    {
      (forall i :: 0 <= i < |Nodes| ==> Nodes[i] in Pos && Pos[Nodes[i]] == i) &&
      (Nodes == [] ==> head == null && tail == null) &&
      (Nodes != [] ==>
        head == Nodes[0] && tail == Nodes[|Nodes| - 1] &&
        Nodes[0].prev == null && Nodes[|Nodes| - 1].next == null) &&
      (forall i :: 0 <= i < |Nodes| - 1 ==> Nodes[i].next == Nodes[i + 1] && Nodes[i + 1].prev == Nodes[i])
    }

    ghost function IndexOf(x: RegionLog): (k: nat)
      requires x in Nodes
      reads this
      ensures k < |Nodes| && Nodes[k] == x
    {
      var k :| 0 <= k < |Nodes| && Nodes[k] == x; k
    }

    /** From the node at `i`, `next` leads to the node at `i + 1`, or to null at the end. */
    lemma NextOf(i: int)
      requires Valid() && 0 <= i < |Nodes|
      ensures Nodes[i].next == (if i + 1 < |Nodes| then Nodes[i + 1] else null)
    {
    }
  }
}
