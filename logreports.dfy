/**
  The text both log classes print for one region: the header line, the
  line of creation-site offsets, and one line per call site in the
  allocation map, in the order the map is iterated.
 */
module LogReports {

  import opened Wrappers
  import opened Words
  import opened CStrings
  import opened Reports
  import opened Traces
  import opened Offsets

  /** Every symbol line the symbolizer can produce has the expected shape. */
  ghost predicate AllFormatted(symbolize: Address -> string, exe: string, opener: string)
  {
    forall a :: Formatted(symbolize(a), exe, opener)
  }

  /** What `putOffset` prints for the frame at `a`. */
  function FrameField(a: Address, symbolize: Address -> string, exe: string, opener: string): string
    requires AllFormatted(symbolize, exe, opener)
  {
    OffsetField(symbolize(a), exe, opener)
  }

  /** The offsets printed for the frames of `trace`, in order, each with its space. */
  function OffsetText(trace: seq<Address>, symbolize: Address -> string, exe: string, opener: string): string
    requires AllFormatted(symbolize, exe, opener)
  {
    if trace == [] then ""
    else FrameField(trace[0], symbolize, exe, opener) + OffsetText(trace[1..], symbolize, exe, opener)
  }

  /** One more frame adds its field at the end. */
  lemma {:induction false} OffsetTextAppend(trace: seq<Address>, a: Address,
                                            symbolize: Address -> string, exe: string, opener: string)
    requires AllFormatted(symbolize, exe, opener)
    ensures OffsetText(trace + [a], symbolize, exe, opener) ==
      OffsetText(trace, symbolize, exe, opener) + FrameField(a, symbolize, exe, opener)
  {
    if trace == [] {
      assert [] + [a] == [a];
      assert [a][1..] == [];
    } else {
      assert (trace + [a])[1..] == trace[1..] + [a];
      OffsetTextAppend(trace[1..], a, symbolize, exe, opener);
    }
  }

  /**
    The loop over the frames of a trace: print the offset of each frame
    in turn.
   */
  method PrintTrace(trace: seq<Address>, symbolize: Address -> string, exe: string, opener: string)
    returns (text: string)
    requires AllFormatted(symbolize, exe, opener)
    ensures text == OffsetText(trace, symbolize, exe, opener)
  {
    text := "";
    var i := 0;
    while i < |trace|
      invariant 0 <= i <= |trace|
      invariant text == OffsetText(trace[..i], symbolize, exe, opener)
    {
      var field := FrameField(trace[i], symbolize, exe, opener);
      assert trace[..i + 1] == trace[..i] + [trace[i]];
      OffsetTextAppend(trace[..i], trace[i], symbolize, exe, opener);
      text := text + field;
      i := i + 1;
    }
    assert trace[..i] == trace;
  }

  /** `order` lists every key of the map exactly once. */
  ghost predicate Enumerates<K(!new)>(order: seq<K>, keys: set<K>)
  {
    (forall i, j :: 0 <= i < j < |order| ==> order[i] != order[j]) &&
    (forall k :: k in keys <==> k in order)
  }

  /**
    The six provider counters of a log, in report order: allocated,
    freed, in-use allocated, in-use freed, real-in-use allocated,
    real-in-use freed.
   */
  type ProviderCounters = c: seq<SizeT> | |c| == 6 witness [0, 0, 0, 0, 0, 0]

  /**
    Growth deltas added to the three `*Allocated` counters, each with
    `size_t` wrap-around; the `*Freed` counters keep their values.
   */
  function Increased(c: ProviderCounters, raw: SizeT, inUse: SizeT, realInUse: SizeT): (r: ProviderCounters)
    ensures r[1] == c[1] && r[3] == c[3] && r[5] == c[5]
  {
    [AddSize(c[0], raw), c[1], AddSize(c[2], inUse), c[3], AddSize(c[4], realInUse), c[5]]
  }

  /**
    Release deltas added to the three `*Freed` counters; the
    `*Allocated` counters keep their values.
   */
  function Released(c: ProviderCounters, raw: SizeT, inUse: SizeT, realInUse: SizeT): (r: ProviderCounters)
    ensures r[0] == c[0] && r[2] == c[2] && r[4] == c[4]
  {
    [c[0], AddSize(c[1], raw), c[2], AddSize(c[3], inUse), c[4], AddSize(c[5], realInUse)]
  }

  /** Growth and release touch disjoint counters, so their order does not matter. */
  lemma IncreaseReleaseCommute(c: ProviderCounters, a: SizeT, u: SizeT, r: SizeT, fa: SizeT, fu: SizeT, fr: SizeT)
    ensures Released(Increased(c, a, u, r), fa, fu, fr) == Increased(Released(c, fa, fu, fr), a, u, r)
  {
  }

  /** Two growth steps add up to one growth step by the summed deltas. */
  lemma IncreasedTwice(c: ProviderCounters, a1: SizeT, u1: SizeT, r1: SizeT, a2: SizeT, u2: SizeT, r2: SizeT)
    ensures Increased(Increased(c, a1, u1, r1), a2, u2, r2) ==
      Increased(c, AddSize(a1, a2), AddSize(u1, u2), AddSize(r1, r2))
  {
    AddSizeAssociative(c[0], a1, a2);
    AddSizeAssociative(c[2], u1, u2);
    AddSizeAssociative(c[4], r1, r2);
  }

  /** Two release steps add up to one release step by the summed deltas. */
  lemma ReleasedTwice(c: ProviderCounters, a1: SizeT, u1: SizeT, r1: SizeT, a2: SizeT, u2: SizeT, r2: SizeT)
    ensures Released(Released(c, a1, u1, r1), a2, u2, r2) ==
      Released(c, AddSize(a1, a2), AddSize(u1, u2), AddSize(r1, r2))
  {
    AddSizeAssociative(c[1], a1, a2);
    AddSizeAssociative(c[3], u1, u2);
    AddSizeAssociative(c[5], r1, r2);
  }

  /** The line printed for one entry of the allocation map. */
  function EntryLine(m: map<AllocEntry, SizeT>, e: AllocEntry,
                     symbolize: Address -> string, exe: string, opener: string): string
    requires e in m
    requires AllFormatted(symbolize, exe, opener)
  {
    CallsiteLine(m[e], OffsetText(e.trace, symbolize, exe, opener))
  }

  /** The call-site lines for the entries of `m` taken in `order`. */
  function CallsiteLines(m: map<AllocEntry, SizeT>, order: seq<AllocEntry>,
                         symbolize: Address -> string, exe: string, opener: string): string
    requires forall e :: e in order ==> e in m
    requires AllFormatted(symbolize, exe, opener)
  {
    if order == [] then ""
    else EntryLine(m, order[0], symbolize, exe, opener) + CallsiteLines(m, order[1..], symbolize, exe, opener)
  }

  lemma {:induction false} CallsiteLinesAppend(m: map<AllocEntry, SizeT>, order: seq<AllocEntry>, e: AllocEntry,
                                               symbolize: Address -> string, exe: string, opener: string)
    requires forall x :: x in order ==> x in m
    requires e in m
    requires AllFormatted(symbolize, exe, opener)
    ensures CallsiteLines(m, order + [e], symbolize, exe, opener) ==
      CallsiteLines(m, order, symbolize, exe, opener) + EntryLine(m, e, symbolize, exe, opener)
  {
    if order == [] {
      assert [] + [e] == [e];
      assert [e][1..] == [];
    } else {
      assert (order + [e])[1..] == order[1..] + [e];
      CallsiteLinesAppend(m, order[1..], e, symbolize, exe, opener);
    }
  }

  /**
    The loop over the allocation map: for each entry, in the order the
    map is iterated, the cumulative bytes, a space, the offsets of the
    call site's frames and a newline.  `order` is the iteration order.
   */
  method PrintCallsites(m: map<AllocEntry, SizeT>, symbolize: Address -> string, exe: string, opener: string)
    returns (text: string, order: seq<AllocEntry>)
    requires AllFormatted(symbolize, exe, opener)
    ensures Enumerates(order, m.Keys)
    ensures forall e :: e in order ==> e in m
    ensures text == CallsiteLines(m, order, symbolize, exe, opener)
  {
    text := "";
    var left := m.Keys;
    order := [];
    while left != {}
      invariant forall e :: e in order ==> e in m
      invariant forall e :: e in m ==> (e in left <==> e !in order)
      invariant left <= m.Keys
      invariant forall i, j :: 0 <= i < j < |order| ==> order[i] != order[j]
      invariant text == CallsiteLines(m, order, symbolize, exe, opener)
      decreases |left|
    {
      var e :| e in left;
      var offsets := PrintTrace(e.trace, symbolize, exe, opener);
      var line := NatToString(m[e]) + " " + offsets + "\n";
      assert line == EntryLine(m, e, symbolize, exe, opener);
      CallsiteLinesAppend(m, order, e, symbolize, exe, opener);
      text := text + line;
      order := order + [e];
      left := left - {e};
    }
  }

  /** The whole report of one region log. */
  function Report(marker: char, fields: seq<int>, trace: seq<Address>,
                  m: map<AllocEntry, SizeT>, order: seq<AllocEntry>,
                  symbolize: Address -> string, exe: string, opener: string): string
    requires forall e :: e in order ==> e in m
    requires AllFormatted(symbolize, exe, opener)
  {
    HeaderLine(marker, fields) + OffsetLine(OffsetText(trace, symbolize, exe, opener)) +
    CallsiteLines(m, order, symbolize, exe, opener)
  }

  /** The first line of `text`, newline included, if it has one. */
  function FirstLine(text: string): Option<string>
  {
    match Find(text, "\n", 0)
    case None => None
    case Some(i) => Some(text[..i + 1])
  }

  /** The first line of a text that starts with a header line is that header line. */
  lemma HeaderIsFirstLine(kind: char, xs: seq<int>, rest: string)
    requires kind != '\n'
    ensures FirstLine(HeaderLine(kind, xs) + rest) == Some(HeaderLine(kind, xs))
  {
    var h := HeaderLine(kind, xs);
    var text := h + rest;
    var n := |h| - 1;
    FieldsHaveNoNewline(xs);
    assert forall j :: 0 <= j < n ==> text[j] == h[j] && h[j] != '\n';
    assert forall j :: 0 <= j < n ==> !OccursAt(text, "\n", j) by {
      forall j | 0 <= j < n
        ensures !OccursAt(text, "\n", j)
      {
        assert text[j..j + 1][0] == text[j];
      }
    }
    assert text[n..n + 1] == "\n";
    assert OccursAt(text, "\n", n);
    FindIsFirst(text, "\n", 0);
    match Find(text, "\n", 0)
    case None =>
      assert false;
    case Some(i) =>
      assert i == n;
      assert text[..n + 1] == h;
  }

  /**
    Reading the first line of a report back gives exactly the kind marker
    and the header fields that were printed.
   */
  lemma ReportHeaderRoundTrip(marker: char, fields: seq<int>, trace: seq<Address>,
                              m: map<AllocEntry, SizeT>, order: seq<AllocEntry>,
                              symbolize: Address -> string, exe: string, opener: string)
    requires marker != '\n'
    requires forall e :: e in order ==> e in m
    requires AllFormatted(symbolize, exe, opener)
    ensures FirstLine(Report(marker, fields, trace, m, order, symbolize, exe, opener)).Some?
    ensures ParseHeader(FirstLine(Report(marker, fields, trace, m, order, symbolize, exe, opener)).value) ==
      Some((marker, fields))
  {
    var rest := OffsetLine(OffsetText(trace, symbolize, exe, opener)) + CallsiteLines(m, order, symbolize, exe, opener);
    assert Report(marker, fields, trace, m, order, symbolize, exe, opener) == HeaderLine(marker, fields) + rest;
    HeaderIsFirstLine(marker, fields, rest);
    HeaderRoundTrip(marker, fields);
  }
}
