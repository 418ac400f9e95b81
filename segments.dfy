/**
  Memory segments and the segment provider a region draws them from.
  A segment is a buffer of fixed capacity with a bump cursor and an
  intrusive link to the segment it was put in front of.  The provider is
  the abstract supplier of segments: it hands out segments at least as
  large as requested, takes them back, keeps three byte counters, a
  logical clock for region events, the switch that turns region logging
  on, and the head and tail slots of the region-log list.
 */
module Segments {

  import opened Words
  import opened RegionLogs

  class Segment {
    const capacity: SizeT
    var used: SizeT
    var prev: Segment?

    /** A segment of `capacity` bytes, nothing used, linked to nothing. */
    constructor (capacity: SizeT)
      ensures this.capacity == capacity && used == 0 && prev == null
    {
      this.capacity := capacity;
      used := 0;
      prev := null;
    }

    /** `remaining()`: the bytes still free behind the cursor. */
    function Remaining(): int
      reads this
    {
      capacity - used
    }

    /** `allocate(n)`: the offset of `n` untouched bytes; the cursor moves past them. */
    method Allocate(n: SizeT) returns (offset: SizeT)
      requires n <= Remaining()
      modifies this`used
      ensures offset == old(used) && used == old(used) + n
    {
      offset := used;
      used := used + n;
    }

    /** `link(previous)`: put this segment in front of `previous`. */
    method Link(previous: Segment)
      modifies this`prev
      ensures prev == previous
    {
      prev := previous;
    }

    /** `unlink()`: detach this segment and return the one it was in front of. */
    method Unlink() returns (previous: Segment?)
      modifies this`prev
      ensures previous == old(prev) && prev == null
    {
      previous := prev;
      prev := null;
    }
  }

  /**
    A segment provider.  The pure virtual operations are given one
    conforming behaviour: `request` makes a fresh segment of the default
    size, or of the requested size when that is larger; the three counters
    follow the capacity of the segments handed out and taken back; and
    `recordEvent` advances a 32-bit logical clock and returns it.  The
    ghost `issued` and `released` record every segment handed out and
    every segment given back, in order.
   */
  /** The provider's counters, switch and ghost history, as one value; the clock is apart. */
  datatype ProviderState = ProviderState(
    bytesAllocated: SizeT,
    regionBytesInUse: SizeT,
    regionRealBytesInUse: SizeT,
    collect: bool,
    issued: set<Segment>,
    released: seq<Segment>)

  class SegmentProvider {
    const defaultSegmentSize: SizeT
    var bytesAllocated: SizeT
    var regionBytesInUse: SizeT
    var regionRealBytesInUse: SizeT
    var collect: bool
    var clock: UInt32
    /** The head and tail slots of the region-log list. */
    const logs: RegionLogList
    ghost var issued: set<Segment>
    ghost var released: seq<Segment>

    /**
      `SegmentProvider(defaultSegmentSize)`: the size is kept for good,
      and the region-log list starts empty.
     */
    constructor (defaultSegmentSize: SizeT)
      ensures this.defaultSegmentSize == defaultSegmentSize
      ensures fresh(logs) && logs.Valid() && logs.Nodes == [] && logs.head == null && logs.tail == null
      ensures bytesAllocated == 0 && regionBytesInUse == 0 && regionRealBytesInUse == 0
      ensures !collect && clock == 0 && issued == {} && released == []
    {
      this.defaultSegmentSize := defaultSegmentSize;
      bytesAllocated := 0;
      regionBytesInUse := 0;
      regionRealBytesInUse := 0;
      collect := false;
      clock := 0;
      logs := new RegionLogList();
      issued := {};
      released := [];
    }

    /**
      The copy constructor copies the default segment size and nothing
      else: the copy has its own, empty, region-log list.
     */
    constructor Copy(other: SegmentProvider)
      ensures defaultSegmentSize == other.defaultSegmentSize
      ensures fresh(logs) && logs.Valid() && logs.Nodes == [] && logs.head == null && logs.tail == null
      ensures bytesAllocated == 0 && regionBytesInUse == 0 && regionRealBytesInUse == 0
      ensures !collect && clock == 0 && issued == {} && released == []
    {
      defaultSegmentSize := other.defaultSegmentSize;
      bytesAllocated := 0;
      regionBytesInUse := 0;
      regionRealBytesInUse := 0;
      collect := false;
      clock := 0;
      logs := new RegionLogList();
      issued := {};
      released := [];
    }

    ghost function State(): ProviderState
      reads this
    {
      ProviderState(bytesAllocated, regionBytesInUse, regionRealBytesInUse, collect, issued, released)
    }

    function DefaultSegmentSize(): SizeT
    {
      defaultSegmentSize
    }

    function BytesAllocated(): SizeT
      reads this
    {
      bytesAllocated
    }

    function RegionBytesInUse(): SizeT
      reads this
    {
      regionBytesInUse
    }

    function RegionRealBytesInUse(): SizeT
      reads this
    {
      regionRealBytesInUse
    }

    function CollectRegions(): bool
      reads this
    {
      collect
    }

    /** `setCollectRegionLog`: regions created from now on keep a log. */
    method SetCollectRegionLog()
      modifies this
      ensures collect && clock == old(clock)
      ensures bytesAllocated == old(bytesAllocated) && regionBytesInUse == old(regionBytesInUse)
      ensures regionRealBytesInUse == old(regionRealBytesInUse)
      ensures issued == old(issued) && released == old(released)
    {
      collect := true;
    }

    /** `recordEvent`: the next tick of the 32-bit logical clock. */
    method RecordEvent() returns (t: UInt32)
      modifies this
      ensures t == clock && clock == (old(clock) + 1) % UInt32Modulus
      ensures collect == old(collect)
      ensures bytesAllocated == old(bytesAllocated) && regionBytesInUse == old(regionBytesInUse)
      ensures regionRealBytesInUse == old(regionRealBytesInUse)
      ensures issued == old(issued) && released == old(released)
    {
      clock := (clock + 1) % UInt32Modulus;
      t := clock;
    }

    /**
      `request(requiredSize)`: a fresh, empty, unlinked segment with at
      least `requiredSize` bytes remaining.
     */
    method Request(requiredSize: SizeT) returns (s: Segment)
      modifies this
      ensures fresh(s) && s.used == 0 && s.prev == null
      ensures s.Remaining() >= requiredSize
      ensures s.capacity == if requiredSize > defaultSegmentSize then requiredSize else defaultSegmentSize
      ensures issued == old(issued) + {s} && released == old(released)
      ensures bytesAllocated == AddSize(old(bytesAllocated), s.capacity)
      ensures regionBytesInUse == AddSize(old(regionBytesInUse), s.capacity)
      ensures regionRealBytesInUse == AddSize(old(regionRealBytesInUse), s.capacity)
      ensures collect == old(collect) && clock == old(clock)
    {
      var size := if requiredSize > defaultSegmentSize then requiredSize else defaultSegmentSize;
      s := new Segment(size);
      bytesAllocated := AddSize(bytesAllocated, size);
      regionBytesInUse := AddSize(regionBytesInUse, size);
      regionRealBytesInUse := AddSize(regionRealBytesInUse, size);
      issued := issued + {s};
    }

    /** `release(segment)`: take a segment back; it cannot fail. */
    method Release(s: Segment)
      modifies this
      ensures released == old(released) + [s] && issued == old(issued)
      ensures bytesAllocated == SubSize(old(bytesAllocated), s.capacity)
      ensures regionBytesInUse == SubSize(old(regionBytesInUse), s.capacity)
      ensures regionRealBytesInUse == SubSize(old(regionRealBytesInUse), s.capacity)
      ensures collect == old(collect) && clock == old(clock)
    {
      bytesAllocated := SubSize(bytesAllocated, s.capacity);
      regionBytesInUse := SubSize(regionBytesInUse, s.capacity);
      regionRealBytesInUse := SubSize(regionRealBytesInUse, s.capacity);
      released := released + [s];
    }
  }
}
