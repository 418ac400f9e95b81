/**
  `TR::Region`: a bump allocator over a chain of segments.  A region
  starts on its own inline segment; when the current segment cannot
  serve a request it asks the segment provider for a new one and puts it
  in front.  Requests are rounded up to a multiple of 16 and a running
  total is kept.  At teardown the region runs its destroyers, newest
  first, gives every segment but the inline one back to the provider,
  newest first, and then discards or completes its log.
 */
module Regions {

  import opened Words
  import opened Traces
  import opened LogReports
  import opened RegionLogs
  import opened Segments

  /** The capacity of the inline segment, and the threshold for keeping a log. */
  const InitialSegmentSize: SizeT := 4096

  /** The alignment every rounded size is a multiple of. */
  const Alignment: nat := 16

  /** A registered destroyer, standing for the object whose finalizer it runs. */
  type DestroyerId = nat

  /**
    `round(bytes)`: `(bytes + 15) & ~15` on `size_t`, that is, the wrapped
    sum with its four low bits cleared.  The result is a multiple of 16,
    at least the request and less than 16 above it, except for the
    fifteen largest requests: their sum wraps, and they round to 0.
   */
  function Round(bytes: SizeT): (r: SizeT)
    ensures r % Alignment == 0
    ensures bytes <= SizeModulus - Alignment ==> bytes <= r < bytes + Alignment
    ensures bytes > SizeModulus - Alignment ==> r == 0
  {
    var x := AddSize(bytes, 15);
    x - x % 16
  }

  /** `s` in the opposite order. */
  function Reversed<T>(s: seq<T>): seq<T>
  {
    if s == [] then [] else Reversed(s[1..]) + [s[0]]
  }

  /** Position `j` of the reversal is position `|s| - 1 - j` of `s`. */
  lemma {:induction false} ReversedAt<T>(s: seq<T>, j: nat)
    requires j < |s|
    ensures |Reversed(s)| == |s| && Reversed(s)[j] == s[|s| - 1 - j]
  {
    ReversedLength(s);
    if j < |s| - 1 {
      ReversedAt(s[1..], j);
      ReversedLength(s[1..]);
    }
  }

  lemma {:induction false} ReversedLength<T>(s: seq<T>)
    ensures |Reversed(s)| == |s|
  {
    if s != [] {
      ReversedLength(s[1..]);
    }
  }

  /** Reversal reorders and neither loses nor repeats an element. */
  lemma {:induction false} ReversedMultiset<T>(s: seq<T>)
    ensures multiset(Reversed(s)) == multiset(s)
  {
    if s != [] {
      ReversedMultiset(s[1..]);
      assert s == [s[0]] + s[1..];
    }
  }

  /**
    `_allocMap` after `n` more bytes from `site`: the entry is found and
    increased (with `size_t` wrap-around), or inserted with `n`.  The site
    joins the keys and every other entry is left alone.
   */
  function Counted(m: map<AllocEntry, SizeT>, site: AllocEntry, n: SizeT): (r: map<AllocEntry, SizeT>)
    ensures r.Keys == m.Keys + {site}
    ensures r[site] == (if site in m then AddSize(m[site], n) else n)
    ensures forall e {:trigger r[e]} :: e in m && e != site ==> r[e] == m[e]
  {
    if site in m then m[site := AddSize(m[site], n)] else m[site := n]
  }

  /** No element of `s` occurs twice. */
  ghost predicate Distinct<T>(s: seq<T>)
  {
    s == [] || (s[0] !in s[1..] && Distinct(s[1..]))
  }

  /** The call-site map after requests of `sizes[i]` bytes from `sites[i]`, in order. */
  ghost function Histogram(sites: seq<AllocEntry>, sizes: seq<SizeT>): map<AllocEntry, SizeT>
    requires |sites| == |sizes|
  {
    if sites == [] then map[]
    else
      var n := |sites| - 1;
      Counted(Histogram(sites[..n], sizes[..n]), sites[n], sizes[n])
  }

  /** The sizes requested from `site`, in request order. */
  ghost function SizesFrom(sites: seq<AllocEntry>, sizes: seq<SizeT>, site: AllocEntry): seq<SizeT>
    requires |sites| == |sizes|
  {
    if sites == [] then []
    else
      var n := |sites| - 1;
      SizesFrom(sites[..n], sizes[..n], site) + (if sites[n] == site then [sizes[n]] else [])
  }

  /**
    A call site has an entry exactly when some request came from it, and
    the entry is the sum of the sizes requested from it.
   */
  lemma {:induction false} HistogramEntry(sites: seq<AllocEntry>, sizes: seq<SizeT>, site: AllocEntry)
    requires |sites| == |sizes|
    ensures site in Histogram(sites, sizes) <==> site in sites
    ensures site in sites ==> Histogram(sites, sizes)[site] == SumSize(SizesFrom(sites, sizes, site))
  {
    if sites != [] {
      var n := |sites| - 1;
      var prefix := sites[..n];
      HistogramEntry(prefix, sizes[..n], site);
      assert sites == prefix + [sites[n]];
      assert site in sites <==> site in prefix || site == sites[n];
      var before := SizesFrom(prefix, sizes[..n], site);
      if sites[n] == site {
        SumSizeAppend(before, sizes[n]);
        if site !in prefix {
          NoneFrom(prefix, sizes[..n], site);
          assert SumSize(before) == 0;
        }
      } else {
        assert SizesFrom(sites, sizes, site) == before + [];
        assert before + [] == before;
      }
    }
  }

  /** No size is attributed to a site no request came from. */
  lemma {:induction false} NoneFrom(sites: seq<AllocEntry>, sizes: seq<SizeT>, site: AllocEntry)
    requires |sites| == |sizes| && site !in sites
    ensures SizesFrom(sites, sizes, site) == []
  {
    if sites != [] {
      var n := |sites| - 1;
      assert sites[..n] + [sites[n]] == sites;
      NoneFrom(sites[..n], sizes[..n], site);
    }
  }

  /** One more request extends the histogram by `Counted`. */
  lemma HistogramAppend(sites: seq<AllocEntry>, sizes: seq<SizeT>, site: AllocEntry, n: SizeT)
    requires |sites| == |sizes|
    ensures Histogram(sites + [site], sizes + [n]) == Counted(Histogram(sites, sizes), site, n)
  {
    assert (sites + [site])[..|sites|] == sites;
    assert (sizes + [n])[..|sizes|] == sizes;
  }

  /**
    A region.  `destroyers` lists the registered destroyers oldest first,
    so its last element is `_lastDestroyer` and each element's `prev()`
    is the one before it.  The ghost `Chain` is the segment chain from
    the current segment to the inline one; `Served` and `Sites` record
    the rounded size and the call site of every allocation, in order.
   */
  class Region {
    var bytesAllocated: SizeT
    const provider: SegmentProvider
    const initialSegment: Segment
    var currentSegment: Segment
    var destroyers: seq<DestroyerId>
    const collectRegionLog: bool
    const regionLog: RegionLog?
    ghost var Chain: seq<Segment>
    ghost var Served: seq<SizeT>
    ghost var Sites: seq<AllocEntry>

    /**
      The chain runs from the current segment through `prev` links to
      the inline segment, with no segment twice; the running total is
      the sum of the rounded sizes served; a log exists exactly when
      logging is on, and its call-site map is the histogram of the
      allocations; the cursor of the current segment is 16-byte aligned.
     */
    ghost predicate Valid()
      reads this`Chain, this`currentSegment, this`Sites, this`Served, this`bytesAllocated
      reads Chain`prev, currentSegment`used, Log()`allocMap
    {
      ChainValid() && Accounted() && (collectRegionLog <==> regionLog != null) &&
      currentSegment.used % Alignment == 0
    }

    /**
      The bookkeeping part of `Valid`: the running total is the sum of
      the rounded sizes served, and the log's call-site map is their
      histogram by call site.
     */
    ghost predicate Accounted()
      reads this`Sites, this`Served, this`bytesAllocated, Log()`allocMap
    {
      |Sites| == |Served| && bytesAllocated == SumSize(Served) &&
      (regionLog != null ==> regionLog.allocMap == Histogram(Sites, Served))
    }

    /**
      The segment part of `Valid`: `Chain` starts at the current segment,
      each segment's `prev` is the next one in `Chain`, it ends at the
      inline segment, and no segment occurs twice.
     */
    ghost predicate ChainValid()
      reads this`Chain, this`currentSegment, Chain`prev
    {
      |Chain| >= 1 && Chain[0] == currentSegment && Chain[|Chain| - 1] == initialSegment &&
      (forall i :: 0 <= i < |Chain| - 1 ==> Chain[i].prev == Chain[i + 1]) &&
      Distinct(Chain) &&
      initialSegment.capacity == InitialSegmentSize
    }

    /**
      `Region(segmentProvider, rawAllocator, isHeap)`: nothing allocated,
      a fresh inline segment as the whole chain, no destroyers, and a log
      when the provider collects regions.
     */
    constructor (segmentProvider: SegmentProvider, isHeap: bool, frames: seq<Address>)
      requires |frames| == RegionBacktraceDepth + 1
      requires segmentProvider.logs.Valid()
      modifies segmentProvider, segmentProvider.logs, segmentProvider.logs.tail
      ensures Valid() && provider == segmentProvider && provider.logs.Valid()
      ensures bytesAllocated == 0 && Served == [] && destroyers == []
      ensures fresh(initialSegment) && currentSegment == initialSegment && Chain == [initialSegment]
      ensures initialSegment.used == 0
      ensures LogStarted(segmentProvider, regionLog, old(segmentProvider.logs.tail), isHeap, frames)
    {
      var inline := new Segment(InitialSegmentSize);
      bytesAllocated := 0;
      provider := segmentProvider;
      initialSegment := inline;
      currentSegment := inline;
      destroyers := [];
      Chain := [inline];
      Served := [];
      Sites := [];
      var log := NewLog(segmentProvider, isHeap, frames);
      regionLog := log;
      collectRegionLog := log != null;
    }

    /**
      `Region(prototype, isHeap)`: the prototype's provider, and otherwise
      a region of its own; its inline segment is in no chain of the
      prototype.
     */
    constructor FromPrototype(prototype: Region, isHeap: bool, frames: seq<Address>)
      requires |frames| == RegionBacktraceDepth + 1
      requires prototype.provider.logs.Valid()
      modifies prototype.provider, prototype.provider.logs, prototype.provider.logs.tail
      ensures Valid() && provider == prototype.provider && provider.logs.Valid()
      ensures bytesAllocated == 0 && Served == [] && destroyers == []
      ensures fresh(initialSegment) && currentSegment == initialSegment && Chain == [initialSegment]
      ensures initialSegment.used == 0 && initialSegment !in prototype.Chain
      ensures LogStarted(prototype.provider, regionLog, old(prototype.provider.logs.tail), isHeap, frames)
    {
      var inline := new Segment(InitialSegmentSize);
      bytesAllocated := 0;
      provider := prototype.provider;
      initialSegment := inline;
      currentSegment := inline;
      destroyers := [];
      Chain := [inline];
      Served := [];
      Sites := [];
      var log := NewLog(prototype.provider, isHeap, frames);
      regionLog := log;
      collectRegionLog := log != null;
    }

    /**
      What both constructors leave behind in the provider: when it
      collects regions, a fresh log at the tail of its list, stamped with
      the next tick of its clock and its byte count, holding frames 1 to
      3 of the constructor's backtrace; otherwise no log and an untouched
      list and clock.  Either way the old tail `last`, the log of the
      region built before, keeps its data.
     */
    static twostate predicate LogStarted(p: SegmentProvider, new log: RegionLog?, last: RegionLog?,
                                         isHeap: bool, frames: seq<Address>)
      requires |frames| == RegionBacktraceDepth + 1
      reads p, p.logs, log, last
    {
      (log != null <==> old(p.collect)) && p.State() == old(p.State()) && last == old(p.logs.tail) &&
      (last != null ==> last.Data() == old(last.Data()) && last.destroyed == old(last.destroyed)) &&
      (log == null ==>
        p.clock == old(p.clock) && p.logs.Nodes == old(p.logs.Nodes) &&
        p.logs.head == old(p.logs.head) && p.logs.tail == old(p.logs.tail)) &&
      (log != null ==>
        fresh(log) && p.logs.Nodes == old(p.logs.Nodes) + [log] && p.logs.tail == log &&
        log.prev == old(p.logs.tail) && log.next == null &&
        p.clock == (old(p.clock) + 1) % UInt32Modulus &&
        log.Data() == LogData(isHeap, frames[1..], Int32Of(p.clock), -1, 0, p.bytesAllocated, 0,
                              [0, 0, 0, 0, 0, 0], map[]))
    }

    /** The region's log, if it keeps one, as a set for frames. */
    ghost function Log(): set<RegionLog>
    {
      if regionLog == null then {} else {regionLog}
    }

    /**
      `allocate(size)`: round the request up and serve it from the current
      segment when it has room, or else from a new segment put in front of
      the chain.  With logging on, the call site (frames 1 to 10 of the
      backtrace) is charged the rounded size, and on the growth path the
      provider's three counter deltas are added to the log.  The result is
      the serving segment and the offset of the bytes in it.  Nothing
      outside the frame changes: in particular the destroyers, the log's
      links and every other log field.
     */
    method Allocate(size: SizeT, frames: seq<Address>) returns (segment: Segment, offset: SizeT)
      requires Valid()
      requires |frames| == MaxBacktraceSize + 1
      modifies this`bytesAllocated, this`currentSegment, this`Chain, this`Sites, this`Served
      modifies currentSegment`used, provider, Log()`allocMap, Log()`bytesSegmentProviderAllocated
      modifies Log()`bytesSegmentProviderInUseAllocated, Log()`bytesSegmentProviderRealInUseAllocated
      ensures Valid()
      ensures Served == old(Served) + [Round(size)] && Sites == old(Sites) + [AllocEntry(frames[1..])]
      ensures bytesAllocated == AddSize(old(bytesAllocated), Round(size))
      ensures segment == currentSegment && segment.used == offset + Round(size)
      ensures offset % Alignment == 0
      ensures regionLog != null ==>
        regionLog.allocMap == Counted(old(regionLog.allocMap), AllocEntry(frames[1..]), Round(size))
      ensures old(currentSegment.Remaining()) >= Round(size) ==>
        Chain == old(Chain) && offset == old(currentSegment.used) && unchanged(provider) &&
        (regionLog != null ==> regionLog.Counters() == old(regionLog.Counters()))
      ensures old(currentSegment.Remaining()) < Round(size) ==>
        Chain == [segment] + old(Chain) && offset == 0 && fresh(segment) && Supplied(provider, segment, Round(size), old(provider.State())) &&
        provider.clock == old(provider.clock) && old(currentSegment).used == old(currentSegment.used) &&
        (regionLog != null ==>
          regionLog.Counters() == Increased(old(regionLog.Counters()), SubSize(provider.bytesAllocated, old(provider.bytesAllocated)),
                   SubSize(provider.regionBytesInUse, old(provider.regionBytesInUse)),
                   SubSize(provider.regionRealBytesInUse, old(provider.regionRealBytesInUse))))
    {
      var roundedSize := Round(size);
      var entry := AllocEntry(frames[1..]);
      if currentSegment.Remaining() >= roundedSize {
        segment, offset := ServeInPlace(entry, roundedSize);
      } else {
        segment, offset := ServeGrown(entry, roundedSize);
      }
    }

    /**
      The bookkeeping of `allocate`: when logging is on, charge the call
      site in the log and snapshot the provider's three counters
      (otherwise the snapshots stay 0); the running total grows by the
      rounded size.  The running total is read by nobody in between, so
      it is updated here on both paths.
     */
    method Account(entry: AllocEntry, n: SizeT) returns (preAllocated: SizeT, preInUse: SizeT, preRealInUse: SizeT)
      requires Valid()
      modifies this`Sites, this`Served, this`bytesAllocated, Log()`allocMap
      ensures Valid()
      ensures Sites == old(Sites) + [entry] && Served == old(Served) + [n]
      ensures bytesAllocated == AddSize(old(bytesAllocated), n)
      ensures regionLog != null ==> regionLog.allocMap == Counted(old(regionLog.allocMap), entry, n)
      ensures regionLog != null ==>
        preAllocated == provider.bytesAllocated && preInUse == provider.regionBytesInUse &&
        preRealInUse == provider.regionRealBytesInUse
      ensures regionLog == null ==> preAllocated == 0 && preInUse == 0 && preRealInUse == 0
    {
      preAllocated, preInUse, preRealInUse := 0, 0, 0;
      if collectRegionLog {
        regionLog.allocMap := Counted(regionLog.allocMap, entry, n);
        preAllocated := provider.BytesAllocated();
        preInUse := provider.RegionBytesInUse();
        preRealInUse := provider.RegionRealBytesInUse();
      }
      HistogramAppend(Sites, Served, entry, n);
      SumSizeAppend(Served, n);
      Sites := Sites + [entry];
      Served := Served + [n];
      bytesAllocated := AddSize(bytesAllocated, n);
    }

    /**
      The path of `allocate` where the current segment has room: charge
      the call site, then the running total grows and the bytes come from
      the current segment.  The provider is not asked, so the "segment
      provider changed" warning cannot be reached.
     */
    method ServeInPlace(entry: AllocEntry, roundedSize: SizeT) returns (segment: Segment, offset: SizeT)
      requires Valid() && currentSegment.Remaining() >= roundedSize && roundedSize % Alignment == 0
      modifies this`bytesAllocated, this`Sites, this`Served, currentSegment`used, Log()`allocMap
      ensures Valid()
      ensures Served == old(Served) + [roundedSize] && Sites == old(Sites) + [entry]
      ensures bytesAllocated == AddSize(old(bytesAllocated), roundedSize)
      ensures segment == currentSegment && offset == old(currentSegment.used)
      ensures segment.used == offset + roundedSize && offset % Alignment == 0
      ensures regionLog != null ==> regionLog.allocMap == Counted(old(regionLog.allocMap), entry, roundedSize)
    {
      var preAllocated, preInUse, preRealInUse := Account(entry, roundedSize);
      if collectRegionLog && SubSize(provider.BytesAllocated(), preAllocated) != 0 {
        assert false;
      }
      segment := currentSegment;
      offset := Take(roundedSize);
    }

    /**
      The path of `allocate` where the current segment is too small:
      charge the call site and snapshot the provider's counters; then a
      new segment is requested, linked in front and made current, the
      running total grows, the log records the provider's deltas, and the
      bytes come from the start of the new segment.
     */
    method ServeGrown(entry: AllocEntry, roundedSize: SizeT) returns (segment: Segment, offset: SizeT)
      requires Valid() && roundedSize % Alignment == 0
      modifies this`bytesAllocated, this`currentSegment, this`Chain, this`Sites, this`Served, provider
      modifies Log()`allocMap, Log()`bytesSegmentProviderAllocated, Log()`bytesSegmentProviderInUseAllocated
      modifies Log()`bytesSegmentProviderRealInUseAllocated
      ensures Valid()
      ensures Served == old(Served) + [roundedSize] && Sites == old(Sites) + [entry]
      ensures bytesAllocated == AddSize(old(bytesAllocated), roundedSize)
      ensures Chain == [segment] + old(Chain) && segment == currentSegment
      ensures offset == 0 && segment.used == roundedSize
      ensures fresh(segment) && Supplied(provider, segment, roundedSize, old(provider.State()))
      ensures provider.clock == old(provider.clock)
      ensures regionLog != null ==> regionLog.allocMap == Counted(old(regionLog.allocMap), entry, roundedSize)
      ensures regionLog != null ==>
        regionLog.Counters() == Increased(old(regionLog.Counters()), SubSize(provider.bytesAllocated, old(provider.bytesAllocated)),
                   SubSize(provider.regionBytesInUse, old(provider.regionBytesInUse)),
                   SubSize(provider.regionRealBytesInUse, old(provider.regionRealBytesInUse)))
    {
      var preAllocated, preInUse, preRealInUse := Account(entry, roundedSize);
      segment, offset := Grow(roundedSize, preAllocated, preInUse, preRealInUse);
    }

    /** The bump in the current segment, which keeps the region valid. */
    method Take(n: SizeT) returns (offset: SizeT)
      requires Valid() && n <= currentSegment.Remaining() && n % Alignment == 0
      modifies currentSegment`used
      ensures Valid()
      ensures offset == old(currentSegment.used) && currentSegment.used == offset + n
      ensures offset % Alignment == 0
    {
      offset := currentSegment.Allocate(n);
    }

    /**
      What the provider's `request(requiredSize)` has done when it handed
      out `s`, starting from state `before`: a fresh segment of the default
      size, or of the requested size when that is larger, now counted in
      all three counters and in the issued segments.
     */
    static ghost predicate Supplied(p: SegmentProvider, s: Segment, requiredSize: SizeT, before: ProviderState)
      reads p
    {
      s !in before.issued &&
      s.capacity == (if requiredSize > p.defaultSegmentSize then requiredSize else p.defaultSegmentSize) &&
      p.State() == before.(issued := before.issued + {s},
                           bytesAllocated := AddSize(before.bytesAllocated, s.capacity),
                           regionBytesInUse := AddSize(before.regionBytesInUse, s.capacity),
                           regionRealBytesInUse := AddSize(before.regionRealBytesInUse, s.capacity))
    }

    /**
      The growth path of `allocate`: request a segment with room for
      `roundedSize` bytes, link it in front of the current one and make it
      current, then serve the bytes from its start.
     */
    method Grow(roundedSize: SizeT, preAllocated: SizeT, preInUse: SizeT, preRealInUse: SizeT)
      returns (segment: Segment, offset: SizeT)
      requires Valid() && roundedSize % Alignment == 0
      requires regionLog != null ==>
        preAllocated == provider.bytesAllocated && preInUse == provider.regionBytesInUse &&
        preRealInUse == provider.regionRealBytesInUse
      modifies this`currentSegment, this`Chain, provider
      modifies Log()`bytesSegmentProviderAllocated, Log()`bytesSegmentProviderInUseAllocated
      modifies Log()`bytesSegmentProviderRealInUseAllocated
      ensures Valid() && Chain == [segment] + old(Chain) && segment == currentSegment
      ensures offset == 0 && segment.used == roundedSize
      ensures fresh(segment) && Supplied(provider, segment, roundedSize, old(provider.State()))
      ensures provider.clock == old(provider.clock)
      ensures regionLog != null ==>
        regionLog.Counters() == Increased(old(regionLog.Counters()), SubSize(provider.bytesAllocated, old(provider.bytesAllocated)),
                   SubSize(provider.regionBytesInUse, old(provider.regionBytesInUse)),
                   SubSize(provider.regionRealBytesInUse, old(provider.regionRealBytesInUse)))
    {
      segment := provider.Request(roundedSize);
      segment.Link(currentSegment);
      currentSegment := segment;
      Chain := [segment] + Chain;
      offset := segment.Allocate(roundedSize);
      if collectRegionLog {
        LogGrowth(preAllocated, preInUse, preRealInUse, segment.capacity);
      }
    }

    /**
      The counter update on the growth path of `allocate`: add the
      provider's deltas since the snapshots, as `size_t` differences, to
      the `*Allocated` counters.  Since the provider grew each counter by
      the new segment's capacity, each delta is that capacity.
     */
    method LogGrowth(preAllocated: SizeT, preInUse: SizeT, preRealInUse: SizeT, capacity: SizeT)
      requires Valid() && regionLog != null
      requires provider.bytesAllocated == AddSize(preAllocated, capacity)
      requires provider.regionBytesInUse == AddSize(preInUse, capacity)
      requires provider.regionRealBytesInUse == AddSize(preRealInUse, capacity)
      modifies Log()`bytesSegmentProviderAllocated, Log()`bytesSegmentProviderInUseAllocated
      modifies Log()`bytesSegmentProviderRealInUseAllocated
      ensures Valid()
      ensures regionLog.Counters() ==
        Increased(old(regionLog.Counters()), SubSize(provider.bytesAllocated, preAllocated),
                  SubSize(provider.regionBytesInUse, preInUse), SubSize(provider.regionRealBytesInUse, preRealInUse))
      ensures SubSize(provider.bytesAllocated, preAllocated) == capacity
      ensures SubSize(provider.regionBytesInUse, preInUse) == capacity
      ensures SubSize(provider.regionRealBytesInUse, preRealInUse) == capacity
    {
      SubAfterAdd(preAllocated, capacity);
      SubAfterAdd(preInUse, capacity);
      SubAfterAdd(preRealInUse, capacity);
      regionLog.bytesSegmentProviderAllocated :=
        AddSize(regionLog.bytesSegmentProviderAllocated, SubSize(provider.BytesAllocated(), preAllocated));
      regionLog.bytesSegmentProviderInUseAllocated :=
        AddSize(regionLog.bytesSegmentProviderInUseAllocated, SubSize(provider.RegionBytesInUse(), preInUse));
      regionLog.bytesSegmentProviderRealInUseAllocated :=
        AddSize(regionLog.bytesSegmentProviderRealInUseAllocated, SubSize(provider.RegionRealBytesInUse(), preRealInUse));
    }

    /** The logging part of both constructors. */
    static method NewLog(p: SegmentProvider, isHeap: bool, frames: seq<Address>) returns (log: RegionLog?)
      requires |frames| == RegionBacktraceDepth + 1
      requires p.logs.Valid()
      modifies p, p.logs, p.logs.tail
      ensures p.logs.Valid() && LogStarted(p, log, old(p.logs.tail), isHeap, frames)
    {
      log := null;
      if p.CollectRegions() {
        log := StampedLog(p, isHeap, frames);
        RegionLog.ListInsert(p.logs, log);
      }
    }

    /**
      A fresh log stamped with the next tick of the provider's clock, the
      provider's byte count and frames 1 to 3 of the backtrace.
     */
    static method StampedLog(p: SegmentProvider, isHeap: bool, frames: seq<Address>) returns (log: RegionLog)
      requires |frames| == RegionBacktraceDepth + 1
      modifies p
      ensures fresh(log) && log.prev == null && log.next == null
      ensures p.clock == (old(p.clock) + 1) % UInt32Modulus
      ensures p.State() == old(p.State())
      ensures log.Data() == LogData(isHeap, frames[1..], Int32Of(p.clock), -1, 0, p.bytesAllocated, 0,
                                    [0, 0, 0, 0, 0, 0], map[])
    {
      log := new RegionLog();
      log.isHeap := isHeap;
      var t := p.RecordEvent();
      log.startTime := Int32Of(t);
      log.startBytesAllocated := p.BytesAllocated();
      log.regionTrace := frames[1..1 + RegionBacktraceDepth];
    }

    /**
      `deallocate`: a region frees nothing before it is torn down, so the
      operation has an empty body; with no `modifies` clause it can change
      nothing.
     */
    method Deallocate(segment: Segment, offset: SizeT, size: SizeT)
    {
    }

    /**
      Registration of a destroyer, which `Region.hpp` does: the new
      destroyer becomes `_lastDestroyer`, in front of the previous one.
     */
    method RegisterDestroyer(d: DestroyerId)
      modifies this`destroyers
      ensures destroyers == old(destroyers) + [d]
    {
      destroyers := destroyers + [d];
    }

    /**
      `~Region`: snapshot the provider's counters when logging, run the
      destroyers newest first, give back every segment but the inline one
      newest first, and then discard the log of a region that never grew
      past its inline segment or else complete it.
     */
    method Destroy() returns (invoked: seq<DestroyerId>)
      requires ChainValid() && (collectRegionLog <==> regionLog != null) && provider.logs.Valid()
      requires regionLog != null ==>
        regionLog in provider.logs.Nodes || (regionLog.prev == null && regionLog.next == null)
      modifies this`currentSegment, this`Chain, Chain`prev, provider, provider.logs, Log()
      modifies if regionLog == null then null else regionLog.prev
      modifies if regionLog == null then null else regionLog.next
      ensures invoked == Reversed(destroyers)
      ensures currentSegment == initialSegment && Chain == [initialSegment]
      ensures Unwound(provider.State(), old(Chain), old(provider.State()))
      ensures forall i :: 0 <= i < |old(Chain)| - 1 ==> old(Chain)[i].prev == null
      ensures provider.logs.Valid()
      ensures !collectRegionLog ==> provider.clock == old(provider.clock) && unchanged(provider.logs)
      ensures regionLog != null ==>
        LogFinished(provider, regionLog, bytesAllocated, SumSize(Capacities(Shed(old(Chain)))),
                    old(provider.clock), old(provider.logs.Nodes), old(regionLog.Counters()), old(regionLog.Origin()))
      ensures regionLog != null && bytesAllocated <= InitialSegmentSize ==>
        NeighbourKept(old(regionLog.prev)) && NeighbourKept(old(regionLog.next))
    {
      var preAllocated, preInUse, preRealInUse := 0, 0, 0;
      if collectRegionLog {
        preAllocated := provider.BytesAllocated();
        preInUse := provider.RegionBytesInUse();
        preRealInUse := provider.RegionRealBytesInUse();
      }
      invoked := RunDestroyers();
      FreeSegmentsAndLog(preAllocated, preInUse, preRealInUse);
    }

    /**
      What `~Region` does after its destroyers ran: give back every segment
      but the inline one, then discard or complete the log against the
      counters `preAllocated`, `preInUse` and `preRealInUse` read before.
     */
    method FreeSegmentsAndLog(preAllocated: SizeT, preInUse: SizeT, preRealInUse: SizeT)
      requires ChainValid() && (collectRegionLog <==> regionLog != null) && provider.logs.Valid()
      requires regionLog != null ==>
        regionLog in provider.logs.Nodes || (regionLog.prev == null && regionLog.next == null)
      requires regionLog != null ==>
        preAllocated == provider.bytesAllocated && preInUse == provider.regionBytesInUse &&
        preRealInUse == provider.regionRealBytesInUse
      modifies this`currentSegment, this`Chain, Chain`prev, provider, provider.logs, Log()
      modifies if regionLog == null then null else regionLog.prev
      modifies if regionLog == null then null else regionLog.next
      ensures currentSegment == initialSegment && Chain == [initialSegment]
      ensures Unwound(provider.State(), old(Chain), old(provider.State()))
      ensures forall i :: 0 <= i < |old(Chain)| - 1 ==> old(Chain)[i].prev == null
      ensures provider.logs.Valid()
      ensures !collectRegionLog ==> provider.clock == old(provider.clock) && unchanged(provider.logs)
      ensures regionLog != null ==>
        LogFinished(provider, regionLog, bytesAllocated, SumSize(Capacities(Shed(old(Chain)))),
                    old(provider.clock), old(provider.logs.Nodes), old(regionLog.Counters()), old(regionLog.Origin()))
      ensures regionLog != null && bytesAllocated <= InitialSegmentSize ==>
        NeighbourKept(old(regionLog.prev)) && NeighbourKept(old(regionLog.next))
    {
      UnwindSegments();
      ghost var freed := SumSize(Capacities(Shed(old(Chain))));
      FinishLog(preAllocated, preInUse, preRealInUse, freed);
    }

    /**
      The last part of `~Region`.  `freed` is what the provider's
      counters went down by since the snapshots, so each `size_t`
      difference the source takes is `freed`.
     */
    method FinishLog(preAllocated: SizeT, preInUse: SizeT, preRealInUse: SizeT, ghost freed: SizeT)
      requires (collectRegionLog <==> regionLog != null) && provider.logs.Valid()
      requires regionLog != null ==>
        regionLog in provider.logs.Nodes || (regionLog.prev == null && regionLog.next == null)
      requires regionLog != null ==>
        provider.bytesAllocated == SubSize(preAllocated, freed) &&
        provider.regionBytesInUse == SubSize(preInUse, freed) &&
        provider.regionRealBytesInUse == SubSize(preRealInUse, freed)
      modifies provider, provider.logs, Log()
      modifies if regionLog == null then null else regionLog.prev
      modifies if regionLog == null then null else regionLog.next
      ensures provider.State() == old(provider.State()) && provider.logs.Valid()
      ensures regionLog == null ==> provider.clock == old(provider.clock) && unchanged(provider.logs)
      ensures regionLog != null ==>
        LogFinished(provider, regionLog, bytesAllocated, freed, old(provider.clock), old(provider.logs.Nodes),
                    old(regionLog.Counters()), old(regionLog.Origin()))
      ensures regionLog != null && bytesAllocated <= InitialSegmentSize ==>
        NeighbourKept(old(regionLog.prev)) && NeighbourKept(old(regionLog.next))
    {
      if collectRegionLog {
        if bytesAllocated <= InitialSegmentSize {
          RegionLog.ListRemove(provider.logs, regionLog);
          return;
        }
        CompleteLog(preAllocated, preInUse, preRealInUse, freed);
      }
    }

    /**
      The log of a region that grew past its inline segment: stamp it with
      the next event, the provider's byte count and what the teardown freed.
     */
    method CompleteLog(preAllocated: SizeT, preInUse: SizeT, preRealInUse: SizeT, ghost freed: SizeT)
      requires regionLog != null
      requires provider.bytesAllocated == SubSize(preAllocated, freed)
      requires provider.regionBytesInUse == SubSize(preInUse, freed)
      requires provider.regionRealBytesInUse == SubSize(preRealInUse, freed)
      modifies provider, Log()`endTime, Log()`endBytesAllocated, Log()`bytesAllocated
      modifies Log()`bytesSegmentProviderFreed, Log()`bytesSegmentProviderInUseFreed
      modifies Log()`bytesSegmentProviderRealInUseFreed
      ensures provider.State() == old(provider.State())
      ensures Completed(provider, regionLog, bytesAllocated, freed, old(provider.clock), provider.logs.Nodes,
                        old(regionLog.Counters()), old(regionLog.Origin()))
    {
      ghost var origin := regionLog.Origin();
      SubOfSub(preAllocated, freed);
      SubOfSub(preInUse, freed);
      SubOfSub(preRealInUse, freed);
      var t := provider.RecordEvent();
      var now := provider.BytesAllocated();
      var f := AddSize(regionLog.bytesSegmentProviderFreed, SubSize(preAllocated, now));
      var fu := AddSize(regionLog.bytesSegmentProviderInUseFreed, SubSize(preInUse, provider.RegionBytesInUse()));
      var fr := AddSize(regionLog.bytesSegmentProviderRealInUseFreed, SubSize(preRealInUse, provider.RegionRealBytesInUse()));
      var log := regionLog;
      log.endTime, log.endBytesAllocated := Int32Of(t), now;
      log.bytesSegmentProviderFreed, log.bytesSegmentProviderInUseFreed, log.bytesSegmentProviderRealInUseFreed := f, fu, fr;
      log.bytesAllocated := bytesAllocated;
      assert regionLog.Origin() == origin;
    }

    /**
      The destroyer loop: starting at `_lastDestroyer` and following
      `prev()`, each destroyer runs once.  The result is the order in
      which they ran.
     */
    method RunDestroyers() returns (invoked: seq<DestroyerId>)
      ensures invoked == Reversed(destroyers)
    {
      invoked := [];
      var i := |destroyers|;
      while i > 0
        invariant 0 <= i <= |destroyers|
        invariant invoked == Reversed(destroyers[i..])
      {
        i := i - 1;
        assert destroyers[i..][1..] == destroyers[i + 1..];
        invoked := invoked + [destroyers[i]];
      }
    }

    /** The segments a chain gives back: all but the last, the inline one. */
    static function Shed(chain: seq<Segment>): seq<Segment>
      requires |chain| >= 1
    {
      chain[..|chain| - 1]
    }

    /** The capacities of `segs`, in order. */
    static function Capacities(segs: seq<Segment>): (r: seq<SizeT>)
      ensures |r| == |segs| && forall i :: 0 <= i < |segs| ==> r[i] == segs[i].capacity
    {
      if segs == [] then [] else [segs[0].capacity] + Capacities(segs[1..])
    }

    /** The capacities of one more segment end with its capacity. */
    static lemma CapacitiesAppend(segs: seq<Segment>, s: Segment)
      ensures Capacities(segs + [s]) == Capacities(segs) + [s.capacity]
    {
    }

    /** The provider state after `s` is given back: released, and each counter down by its capacity. */
    static ghost function Returned(st: ProviderState, s: Segment): ProviderState
    {
      st.(released := st.released + [s],
          bytesAllocated := SubSize(st.bytesAllocated, s.capacity),
          regionBytesInUse := SubSize(st.regionBytesInUse, s.capacity),
          regionRealBytesInUse := SubSize(st.regionRealBytesInUse, s.capacity))
    }

    /**
      What the provider looks like after a chain, starting from state
      `before`, was given back: the shed segments are released in chain
      order, newest first, and each counter is down by their capacity.
      Nothing is issued and the switch stays as it was.
     */
    static ghost predicate Unwound(after: ProviderState, chain: seq<Segment>, before: ProviderState)
      requires |chain| >= 1
    {
      var freed := SumSize(Capacities(Shed(chain)));
      after.released == before.released + Shed(chain) && after.issued == before.issued &&
      after.collect == before.collect &&
      after.bytesAllocated == SubSize(before.bytesAllocated, freed) &&
      after.regionBytesInUse == SubSize(before.regionBytesInUse, freed) &&
      after.regionRealBytesInUse == SubSize(before.regionRealBytesInUse, freed)
    }

    /** Giving back one more segment of the chain extends the unwinding by that segment. */
    static lemma UnwoundStep(before: ProviderState, mid: ProviderState, chain: seq<Segment>, k: nat)
      requires k + 1 < |chain|
      requires Unwound(mid, chain[..k + 1], before)
      ensures Unwound(Returned(mid, chain[k]), chain[..k + 2], before)
    {
      var shed := Shed(chain[..k + 1]);
      assert Shed(chain[..k + 2]) == shed + [chain[k]];
      CapacitiesAppend(shed, chain[k]);
      SumSizeAppend(Capacities(shed), chain[k].capacity);
      var freed := SumSize(Capacities(shed));
      SubSub(before.bytesAllocated, freed, chain[k].capacity);
      SubSub(before.regionBytesInUse, freed, chain[k].capacity);
      SubSub(before.regionRealBytesInUse, freed, chain[k].capacity);
    }

    /**
      The segment loop of `~Region`: while the current segment is not the
      inline one, unlink it, make the segment it was in front of current
      and release it.
     */
    method UnwindSegments()
      requires ChainValid()
      modifies this`currentSegment, this`Chain, Chain`prev, provider
      ensures currentSegment == initialSegment && Chain == [initialSegment]
      ensures Unwound(provider.State(), old(Chain), old(provider.State()))
      ensures provider.clock == old(provider.clock)
      ensures forall i :: 0 <= i < |old(Chain)| - 1 ==> old(Chain)[i].prev == null
    {
      ghost var chain := Chain;
      ghost var before := provider.State();
      ghost var k := 0;
      assert Shed(chain[..1]) == [];
      while currentSegment != initialSegment
        invariant 0 <= k < |chain| && Chain == chain[k..] && ChainValid()
        invariant forall i :: 0 <= i < k ==> chain[i].prev == null
        invariant Unwound(provider.State(), chain[..k + 1], before)
        invariant provider.clock == old(provider.clock)
        decreases |chain| - k
      {
        ShedOne(chain, k, before);
        k := k + 1;
      }
      assert chain[..k + 1] == chain;
    }

    /**
      One round of the segment loop, at position `k` of the chain the loop
      started from: the current segment is unlinked, the one it was in
      front of becomes current, and it is given back.
     */
    method ShedOne(ghost chain: seq<Segment>, ghost k: nat, ghost before: ProviderState)
      requires ChainValid() && currentSegment != initialSegment
      requires k < |chain| && Chain == chain[k..]
      requires forall i :: 0 <= i < k ==> chain[i].prev == null
      requires Unwound(provider.State(), chain[..k + 1], before)
      modifies this`currentSegment, this`Chain, currentSegment`prev, provider
      ensures k + 1 < |chain| && Chain == chain[k + 1..] && ChainValid()
      ensures forall i :: 0 <= i < k + 1 ==> chain[i].prev == null
      ensures Unwound(provider.State(), chain[..k + 2], before)
      ensures provider.clock == old(provider.clock)
    {
      var latest := currentSegment;
      assert |Chain| >= 2 && latest.prev == Chain[1];
      ghost var mid := provider.State();
      var previous := latest.Unlink();
      currentSegment := previous;
      provider.Release(latest);
      Chain := Chain[1..];
      UnwoundStep(before, mid, chain, k);
    }

    /**
      The log at the end of `~Region`, for a region whose allocations
      came to `total` bytes and whose segments, given back, held `freed`
      bytes.  A region that never went past its inline segment takes its
      log off the provider's list and records nothing; otherwise the log
      gets the next tick of the clock as its end time, the provider's
      byte count, the freed bytes in its three `*Freed` counters and the
      region's total.
     */
    static ghost predicate LogFinished(p: SegmentProvider, log: RegionLog, total: SizeT, freed: SizeT,
                                       clock: UInt32, nodes: seq<RegionLog>, counters: ProviderCounters,
                                       origin: LogOrigin)
      reads p, p.logs, p.logs.Nodes, log
    {
      if total <= InitialSegmentSize then Discarded(p, log, clock, nodes)
      else Completed(p, log, total, freed, clock, nodes, counters, origin)
    }

    /** A neighbour of the removed log, if any, keeps its data and is not destroyed. */
    static twostate predicate NeighbourKept(n: RegionLog?)
      reads n
    {
      n != null ==> n.Data() == old(n.Data()) && n.destroyed == old(n.destroyed)
    }

    /** The log of a small region: taken off the list and destroyed, the clock untouched. */
    static ghost predicate Discarded(p: SegmentProvider, log: RegionLog, clock: UInt32, nodes: seq<RegionLog>)
      reads p, p.logs, p.logs.Nodes, log
    {
      p.clock == clock && p.logs.Valid() &&
      log.prev == null && log.next == null && log.destroyed &&
      (log in nodes ==> exists k :: 0 <= k < |nodes| && nodes[k] == log && p.logs.Nodes == nodes[..k] + nodes[k + 1..]) &&
      (log !in nodes ==> p.logs.Nodes == nodes)
    }

    /**
      The log of a region that grew: stamped with the next tick and its
      final figures, and otherwise as it was: the same heap flag, creation
      trace, start time, start bytes and call-site map (`origin`).
     */
    static ghost predicate Completed(p: SegmentProvider, log: RegionLog, total: SizeT, freed: SizeT,
                                     clock: UInt32, nodes: seq<RegionLog>, counters: ProviderCounters,
                                       origin: LogOrigin)
      reads p, p.logs, log
    {
      p.clock == (clock + 1) % UInt32Modulus && p.logs.Nodes == nodes &&
      log.Origin() == origin &&
      log.endTime == Int32Of(p.clock) && log.endBytesAllocated == p.bytesAllocated &&
      log.Counters() == Released(counters, freed, freed, freed) &&
      log.bytesAllocated == total
    }
  }

  /** The provider's three byte counters all read `c`. */
  ghost predicate CountersAt(st: ProviderState, c: SizeT)
  {
    st.bytesAllocated == c && st.regionBytesInUse == c && st.regionRealBytesInUse == c
  }

  /**
    A fresh provider, collecting or not, and a fresh region on it: the
    provider's counters are 0 and its list holds the region's log exactly
    when it collects.
   */
  method Started(defaultSize: SizeT, collect: bool, createFrames: seq<Address>) returns (p: SegmentProvider, r: Region)
    requires |createFrames| == RegionBacktraceDepth + 1
    ensures fresh(p) && fresh(p.logs) && fresh(r) && fresh(r.initialSegment) && r.Valid() && r.provider == p
    ensures r.Chain == [r.initialSegment] && r.currentSegment.used == 0 && r.bytesAllocated == 0 && r.destroyers == []
    ensures CountersAt(p.State(), 0) && p.released == [] && p.issued == {}
    ensures p.logs.Valid() && (r.regionLog != null <==> collect) && p.collect == collect
    ensures r.regionLog == null ==> p.logs.Nodes == [] && p.clock == 0
    ensures r.regionLog != null ==>
      fresh(r.regionLog) && p.logs.Nodes == [r.regionLog] && p.clock == 1 &&
      r.regionLog.prev == null && r.regionLog.next == null
  {
    p := new SegmentProvider(defaultSize);
    if collect {
      p.SetCollectRegionLog();
    }
    r := new Region(p, true, createFrames);
  }

  /**
    A fresh region on a fresh provider after one request of `size`
    bytes: the offset is aligned; the chain is the inline segment, with a
    fresh segment in front exactly when the rounded size did not fit in
    it; and the provider's counters hold that segment's capacity or 0.
   */
  method Served(defaultSize: SizeT, collect: bool, size: SizeT, createFrames: seq<Address>, allocFrames: seq<Address>)
    returns (p: SegmentProvider, r: Region, segment: Segment, offset: SizeT)
    requires |createFrames| == RegionBacktraceDepth + 1 && |allocFrames| == MaxBacktraceSize + 1
    ensures fresh(p) && fresh(p.logs) && fresh(r) && r.provider == p && r.ChainValid()
    ensures r.collectRegionLog == collect && (r.regionLog != null <==> collect)
    ensures offset % Alignment == 0 && r.bytesAllocated == Round(size) && r.destroyers == []
    ensures segment == r.Chain[0] && 1 <= |r.Chain| <= 2 && forall i :: 0 <= i < |r.Chain| ==> fresh(r.Chain[i])
    ensures (|r.Chain| == 2) == (Round(size) > InitialSegmentSize)
    ensures p.released == [] && p.logs.Valid()
    ensures CountersAt(p.State(), if |r.Chain| == 2 then segment.capacity else 0)
    ensures r.regionLog == null ==> p.logs.Nodes == [] && p.clock == 0
    ensures r.regionLog != null ==>
      fresh(r.regionLog) && p.logs.Nodes == [r.regionLog] && p.clock == 1 &&
      r.regionLog.prev == null && r.regionLog.next == null
  {
    p, r := Started(defaultSize, collect, createFrames);
    segment, offset := ServeFirst(r, size, allocFrames);
  }

  /**
    The first request on a region just built on a fresh provider: the
    segment in front, if any, is fresh, and the inline segment stays at
    the end of the chain.
   */
  method ServeFirst(r: Region, size: SizeT, allocFrames: seq<Address>) returns (segment: Segment, offset: SizeT)
    requires |allocFrames| == MaxBacktraceSize + 1
    requires r.Valid() && r.Chain == [r.initialSegment] && r.currentSegment.used == 0 && r.bytesAllocated == 0
    requires CountersAt(r.provider.State(), 0) && r.provider.released == [] && r.provider.logs.Valid()
    modifies r`bytesAllocated, r`currentSegment, r`Chain, r`Sites, r`Served
    modifies r.currentSegment`used, r.provider, r.Log()`allocMap, r.Log()`bytesSegmentProviderAllocated
    modifies r.Log()`bytesSegmentProviderInUseAllocated, r.Log()`bytesSegmentProviderRealInUseAllocated
    ensures r.ChainValid() && offset % Alignment == 0 && r.bytesAllocated == Round(size)
    ensures segment == r.Chain[0] && 1 <= |r.Chain| <= 2 && r.Chain[|r.Chain| - 1] == r.initialSegment
    ensures |r.Chain| == 2 ==> fresh(segment)
    ensures (|r.Chain| == 2) == (Round(size) > InitialSegmentSize)
    ensures r.provider.released == [] && r.provider.clock == old(r.provider.clock)
    ensures CountersAt(r.provider.State(), if |r.Chain| == 2 then segment.capacity else 0)
  {
    assert r.currentSegment.Remaining() == InitialSegmentSize;
    segment, offset := r.Allocate(size, allocFrames);
    assert AddSize(0, segment.capacity) == segment.capacity;
  }

  /**
    A sibling built from a region's prototype on the same provider leaves
    that region valid, so that it can go on serving requests, although
    the sibling's constructor linked its log behind the region's own.  The
    list holds both logs, oldest first, exactly when the provider collects
    regions.
   */
  method Siblings(defaultSize: SizeT, collect: bool, createFrames: seq<Address>, siblingFrames: seq<Address>)
    returns (p: SegmentProvider, r1: Region, r2: Region)
    requires |createFrames| == RegionBacktraceDepth + 1 && |siblingFrames| == RegionBacktraceDepth + 1
    ensures r1.Valid() && r2.Valid() && r1.provider == p && r2.provider == p && p.logs.Valid()
    ensures r1.bytesAllocated == 0 && r2.bytesAllocated == 0 && r1.initialSegment != r2.initialSegment
    ensures collect ==>
      r1.regionLog != null && r2.regionLog != null && p.logs.Nodes == [r1.regionLog, r2.regionLog] && p.clock == 2
    ensures !collect ==> r1.regionLog == null && r2.regionLog == null && p.logs.Nodes == [] && p.clock == 0
  {
    p, r1 := Started(defaultSize, collect, createFrames);
    r2 := Sibling(r1, siblingFrames);
  }

  /**
    `Region(prototype, isHeap)` seen from the prototype: the prototype
    stays valid, and the new region's log, if any, joins the list behind
    the logs already there.
   */
  method Sibling(r1: Region, frames: seq<Address>) returns (r2: Region)
    requires |frames| == RegionBacktraceDepth + 1
    requires r1.Valid() && r1.provider.logs.Valid()
    modifies r1.provider, r1.provider.logs, r1.provider.logs.tail
    ensures r1.Valid() && r2.Valid() && fresh(r2) && r2.provider == r1.provider && r1.provider.logs.Valid()
    ensures fresh(r2.initialSegment) && r2.Chain == [r2.initialSegment] && r2.bytesAllocated == 0
    ensures (r2.regionLog != null) == r1.provider.collect && (r2.regionLog != null ==> fresh(r2.regionLog))
    ensures r1.provider.logs.Nodes == old(r1.provider.logs.Nodes) + (if r2.regionLog == null then [] else [r2.regionLog])
    ensures r1.provider.clock == (if r2.regionLog == null then old(r1.provider.clock) else (old(r1.provider.clock) + 1) % UInt32Modulus)
    ensures r1.provider.State() == old(r1.provider.State())
  {
    ghost var last := r1.provider.logs.tail;
    r2 := new Region.FromPrototype(r1, true, frames);
    assert r1.regionLog != null && r1.regionLog == last ==> r1.regionLog.Data() == old(r1.regionLog.Data());
  }

  /**
    A region's whole life on a fresh provider: construct it, serve one
    request of `size` bytes, tear it down.  The offset is aligned; every
    byte the provider handed out comes back, so its counters are 0 again;
    the serving segment was requested, and is the one segment released,
    exactly when the rounded size did not fit in the inline segment; and the provider's list keeps the
    log only of a logged region that grew, with the clock two ticks on.
   */
  method Lifecycle(defaultSize: SizeT, collect: bool, size: SizeT, createFrames: seq<Address>, allocFrames: seq<Address>)
    returns (p: SegmentProvider, r: Region, segment: Segment, offset: SizeT, invoked: seq<DestroyerId>)
    requires |createFrames| == RegionBacktraceDepth + 1 && |allocFrames| == MaxBacktraceSize + 1
    ensures offset % Alignment == 0 && invoked == [] && r.bytesAllocated == Round(size)
    ensures CountersAt(p.State(), 0)
    ensures p.released == if Round(size) > InitialSegmentSize then [segment] else []
    ensures p.logs.Valid() && (r.regionLog != null <==> collect)
    ensures collect && Round(size) > InitialSegmentSize ==>
      p.logs.Nodes == [r.regionLog] && p.clock == 2 && r.regionLog.bytesAllocated == Round(size)
    ensures !(collect && Round(size) > InitialSegmentSize) ==> p.logs.Nodes == []
  {
    p, r, segment, offset := Served(defaultSize, collect, size, createFrames, allocFrames);
    invoked := TearDown(r, segment);
  }

  /**
    `~Region` on the only region of a provider, served at most one fresh
    segment: the counters go back to 0, that segment alone is released,
    and the log stays on the list, two ticks on, only when the region grew.
   */
  method TearDown(r: Region, ghost segment: Segment) returns (invoked: seq<DestroyerId>)
    requires r.ChainValid() && (r.collectRegionLog <==> r.regionLog != null) && r.provider.logs.Valid()
    requires segment == r.Chain[0] && 1 <= |r.Chain| <= 2 && r.destroyers == [] && r.provider.released == []
    requires (|r.Chain| == 2) == (r.bytesAllocated > InitialSegmentSize)
    requires CountersAt(r.provider.State(), if |r.Chain| == 2 then segment.capacity else 0)
    requires r.regionLog == null ==> r.provider.logs.Nodes == []
    requires r.regionLog != null ==> r.provider.logs.Nodes == [r.regionLog] && r.provider.clock == 1
    modifies r`currentSegment, r`Chain, r.Chain`prev, r.provider, r.provider.logs, r.Log()
    ensures invoked == [] && CountersAt(r.provider.State(), 0) && r.provider.logs.Valid()
    ensures r.provider.released == if r.bytesAllocated > InitialSegmentSize then [segment] else []
    ensures r.regionLog != null && r.bytesAllocated > InitialSegmentSize ==>
      r.provider.logs.Nodes == [r.regionLog] && r.provider.clock == 2 && r.regionLog.bytesAllocated == r.bytesAllocated
    ensures !(r.regionLog != null && r.bytesAllocated > InitialSegmentSize) ==> r.provider.logs.Nodes == []
  {
    ghost var chain, served := r.Chain, r.provider.State();
    assert Reversed(r.destroyers) == [];
    assert r.regionLog != null ==> r.regionLog.prev == null && r.regionLog.next == null;
    invoked := r.Destroy();
    GaveBackAll(served, r.provider.State(), chain, segment);
    if r.regionLog != null {
      LogOutcome(r.provider, r.regionLog, r.bytesAllocated, SumSize(Region.Capacities(Region.Shed(old(r.Chain)))),
                 old(r.provider.clock), old(r.provider.logs.Nodes), old(r.regionLog.Counters()), old(r.regionLog.Origin()));
    }
  }

  /**
    The log of the only region on a provider, after `~Region`: still the
    one log on the list, with the clock two ticks on, when the region
    grew past its inline segment, and otherwise gone from the list.
   */
  lemma LogOutcome(p: SegmentProvider, log: RegionLog, total: SizeT, freed: SizeT,
                    clock: UInt32, nodes: seq<RegionLog>, counters: ProviderCounters,
                                       origin: LogOrigin)
    requires Region.LogFinished(p, log, total, freed, clock, nodes, counters, origin) && clock == 1 && nodes == [log]
    ensures total > InitialSegmentSize ==> p.logs.Nodes == [log] && p.clock == 2 && log.bytesAllocated == total
    ensures total <= InitialSegmentSize ==> p.logs.Nodes == []
  {
    if total <= InitialSegmentSize {
      var k :| 0 <= k < 1 && [log][k] == log && p.logs.Nodes == [log][..k] + [log][k + 1..];
      assert k == 0;
    }
  }

  /**
    A provider whose counters hold no more than the front segment of a
    chain of at most two segments is back at zero once the chain is
    unwound, and has released that front segment alone.
   */
  lemma GaveBackAll(served: ProviderState, after: ProviderState, chain: seq<Segment>, front: Segment)
    requires 1 <= |chain| <= 2 && chain[0] == front
    requires CountersAt(served, if |chain| == 2 then front.capacity else 0) && served.released == []
    requires Region.Unwound(after, chain, served)
    ensures CountersAt(after, 0)
    ensures after.released == if |chain| == 2 then [front] else []
  {
    if |chain| == 2 {
      assert Region.Shed(chain) == [front];
      assert SumSize(Region.Capacities([front])) == front.capacity;
    } else {
      assert Region.Shed(chain) == [];
    }
  }
}
