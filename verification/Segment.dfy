/** One segment file: its entry area, sparse index and footer, and the scan that rebuilds them. */
module Segment {
  import opened Layout

  /** Intact records of the entry area, by file offset. A torn or overwritten record is simply absent. */
  type Cells = map<nat, Entry>

  datatype IndexItem = IndexItem(id: nat, uptime: nat, offset: nat, typ: nat, reserved: nat)

  /** `image` stands for the index checksum: it matches exactly when the index bytes it covers are unchanged. */
  datatype Footer = Footer(at: Ident, first: nat, last: nat, count: nat, dataEnd: nat, indexCount: nat,
                           image: seq<IndexItem>)

  datatype Desc = Desc(valid: bool, sealed: bool, slot: nat, gen: nat, first: nat, last: nat, count: nat, dataEnd: nat,
                       indexCount: nat)

  const NoDesc := Desc(false, false, 0, 0, 0, 0, 0, 0, 0)

  function FirstId(es: seq<Entry>): nat { if es == [] then 0 else es[0].id }

  function LastId(es: seq<Entry>): nat { if es == [] then 0 else es[|es| - 1].id }

  function DescOf(at: Ident, es: seq<Entry>, sealed: bool, indexCount: nat): Desc
  {
    Desc(true, sealed, at.slot, at.gen, FirstId(es), LastId(es), |es|, End(es), indexCount)
  }

  function ItemOf(e: Entry, offset: nat): IndexItem { IndexItem(e.id, e.uptime, offset, e.typ, 0) }

  /** The sparse index a segment with these entries must have: entries 0, STRIDE, 2*STRIDE, ... */
  function Sample(es: seq<Entry>): (r: seq<IndexItem>)
    ensures |r| == IndexCount(|es|)
  {
    seq(IndexCount(|es|), k requires 0 <= k < IndexCount(|es|) => ItemOf(es[STRIDE * k], Off(es, STRIDE * k)))
  }

  function FooterOf(at: Ident, es: seq<Entry>): Footer
  {
    Footer(at, FirstId(es), LastId(es), |es|, End(es), IndexCount(|es|), Sample(es))
  }

  function FooterDesc(f: Footer): Desc
  {
    Desc(true, true, f.at.slot, f.at.gen, f.first, f.last, f.count, f.dataEnd, f.indexCount)
  }

  // ---------- The entry scan ----------

  predicate Accepts(e: Entry, at: Ident) { e.at == at && e.id != 0 }

  /** A valid record follows the run `es`: bound to this use of the slot, in bounds, and newer than the run. */
  predicate Continues(cells: Cells, at: Ident, limit: nat, es: seq<Entry>)
  {
    var off := End(es);
    && off + MIN_ENTRY <= limit
    && off in cells
    && Accepts(cells[off], at)
    && off + Size(cells[off]) <= limit
    && (es == [] || LastId(es) < cells[off].id)
  }

  /** The records `es` lie back to back from the start of the entry area, in ID order and in bounds. */
  ghost predicate Chain(cells: Cells, at: Ident, limit: nat, es: seq<Entry>)
  {
    && Increasing(es)
    && (End(es) <= limit)
    && (forall i :: 0 <= i < |es| ==> Accepts(es[i], at))
    && (forall i {:trigger Off(es, i)} :: 0 <= i < |es| ==> Off(es, i) in cells && cells[Off(es, i)] == es[i])
  }

  ghost predicate IsScan(cells: Cells, at: Ident, limit: nat, es: seq<Entry>)
  {
    Chain(cells, at, limit, es) && !Continues(cells, at, limit, es)
  }

  function ScanFrom(cells: Cells, at: Ident, limit: nat, run: seq<Entry>): seq<Entry>
    decreases if End(run) <= limit then limit - End(run) else 0
  {
    if Continues(cells, at, limit, run) then
      var next := run + [cells[End(run)]];
      assert End(next) == End(run) + Size(cells[End(run)]) by {
        OffStep(next, |run|);
        OffPrefix(run, [cells[End(run)]], |run|);
      }
      ScanFrom(cells, at, limit, next)
    else run
  }

  /** What recovery accepts from an entry area. */
  function Scan(cells: Cells, at: Ident, limit: nat): seq<Entry> { ScanFrom(cells, at, limit, []) }

  lemma ChainExtend(cells: Cells, at: Ident, limit: nat, es: seq<Entry>, e: Entry)
    requires Chain(cells, at, limit, es) && Continues(cells, at, limit, es) && e == cells[End(es)]
    ensures Chain(cells, at, limit, es + [e])
    ensures End(es + [e]) == End(es) + Size(e)
  {
    var next := es + [e];
    OffStep(next, |es|);
    forall i | 0 <= i <= |es| ensures Off(next, i) == Off(es, i) { OffPrefix(es, [e], i); }
  }

  lemma {:induction false} ScanFromIsScan(cells: Cells, at: Ident, limit: nat, run: seq<Entry>)
    requires Chain(cells, at, limit, run)
    ensures IsScan(cells, at, limit, ScanFrom(cells, at, limit, run))
    ensures run <= ScanFrom(cells, at, limit, run)
    decreases if End(run) <= limit then limit - End(run) else 0
  {
    if Continues(cells, at, limit, run) {
      var e := cells[End(run)];
      ChainExtend(cells, at, limit, run, e);
      ScanFromIsScan(cells, at, limit, run + [e]);
    }
  }

  lemma {:induction false} ScanFromPrefix(cells: Cells, at: Ident, limit: nat, es: seq<Entry>, k: nat)
    requires IsScan(cells, at, limit, es) && k <= |es|
    ensures ScanFrom(cells, at, limit, es[..k]) == es
    decreases |es| - k
  {
    if k < |es| {
      OffStep(es, k);
      OffMonotone(es, k + 1, |es|);
      assert End(es[..k]) == Off(es, k) by { assert es[..k][..k] == es[..k]; }
      assert Continues(cells, at, limit, es[..k]);
      assert es[..k] + [es[k]] == es[..k + 1];
      ScanFromPrefix(cells, at, limit, es, k + 1);
    } else {
      assert es[..k] == es;
    }
  }

  /** The scan is the one maximal run of valid records: nothing else qualifies. */
  lemma ScanIsUnique(cells: Cells, at: Ident, limit: nat, es: seq<Entry>)
    requires DATA_START <= limit
    ensures IsScan(cells, at, limit, es) <==> es == Scan(cells, at, limit)
  {
    ScanFromIsScan(cells, at, limit, []);
    if IsScan(cells, at, limit, es) {
      ScanFromPrefix(cells, at, limit, es, 0);
      assert es[..0] == [];
    }
  }

  lemma ChainPrefix(cells: Cells, at: Ident, limit: nat, es: seq<Entry>, k: nat)
    requires Chain(cells, at, limit, es) && k <= |es|
    ensures Chain(cells, at, limit, es[..k])
  {
    var p := es[..k];
    forall i | 0 <= i <= k ensures Off(p, i) == Off(es, i) { assert p[..i] == es[..i]; }
    OffMonotone(es, k, |es|);
  }

  /** The index of a run grows by one item exactly when a group of STRIDE entries begins. */
  lemma SampleExtend(es: seq<Entry>, e: Entry)
    ensures Sample(es + [e]) == if |es| % STRIDE == 0 then Sample(es) + [ItemOf(e, End(es))] else Sample(es)
  {
    var next := es + [e];
    forall i | 0 <= i <= |es| ensures Off(next, i) == Off(es, i) { OffPrefix(es, [e], i); }
    assert forall k :: 0 <= k < IndexCount(|es|) ==> Sample(next)[k] == Sample(es)[k];
  }

  // ---------- Footers ----------

  predicate FooterValid(f: Footer, at: Ident, g: Geometry)
  {
    && f.at == at
    && DATA_START <= f.dataEnd <= g.dataEnd
    && f.indexCount <= g.indexCapacity
    && (f.count == 0 ==> f.first == 0 && f.last == 0 && f.indexCount == 0 && f.dataEnd == DATA_START)
    && (f.count != 0 ==> f.first != 0 && f.first <= f.last && f.indexCount == (f.count - 1) / STRIDE + 1)
  }

  /** The footer written by a seal is one that recovery accepts. */
  lemma FooterOfValid(at: Ident, es: seq<Entry>, g: Geometry)
    requires GeometryOk(g) && Increasing(es) && End(es) <= g.dataEnd
    requires forall e :: e in es ==> e.id != 0
    ensures FooterValid(FooterOf(at, es), at, g)
  {
    IndexNeverFull(g, |es|);
    if |es| > 1 {
      assert es[0].id < es[|es| - 1].id;
    }
  }

  /** The scanned run reproduces the boundary that an older footer declared. */
  predicate PrefixHolds(prefix: Option<Footer>, es: seq<Entry>)
  {
    prefix.Some? && prefix.value.count != 0 ==>
      var f := prefix.value;
      && f.count <= |es|
      && FirstId(es) == f.first
      && es[f.count - 1].id == f.last
      && Off(es, f.count) == f.dataEnd
  }

  // ---------- The scan as recovery performs it ----------

  /** Nothing is lost from the index and its capacity is respected; with room left, the item is not dropped. */
  method AddSparseIndexEntry(index: seq<IndexItem>, capacity: nat, e: Entry, offset: nat) returns (r: seq<IndexItem>)
    ensures index <= r
    ensures |r| <= |index| || |r| <= capacity
    ensures |index| < capacity && offset <= SIZE_MAX ==> |r| == |index| + 1 && r[|index|] == ItemOf(e, offset)
    ensures offset > SIZE_MAX ==> r == index
  {
    r := index;
    if |index| >= capacity || offset > SIZE_MAX {
      return;
    }
    r := index + [ItemOf(e, offset)];
  }

  /** Reads one record, or None when nothing valid starts at this offset. */
  method ScanOneEntry(cells: Cells, at: Ident, g: Geometry, offset: nat) returns (r: Option<Entry>)
    requires GeometryOk(g)
    ensures r == if offset + MIN_ENTRY <= g.dataEnd && offset in cells && Accepts(cells[offset], at)
                    && offset + Size(cells[offset]) <= g.dataEnd then Some(cells[offset]) else None
  {
    r := None;
    if offset > g.dataEnd - MIN_ENTRY || offset !in cells {
      return;
    }
    var e := cells[offset];
    if e.at != at || e.id == 0 {
      return;
    }
    var size := EntrySize(|e.payload|);
    if size == 0 || size > g.dataEnd - offset {
      return;
    }
    r := Some(e);
  }

  lemma ScanStep(cells: Cells, at: Ident, g: Geometry, es: seq<Entry>, e: Entry)
    requires GeometryOk(g) && Chain(cells, at, g.dataEnd, es)
    requires Continues(cells, at, g.dataEnd, es) && e == cells[End(es)]
    ensures Chain(cells, at, g.dataEnd, es + [e])
    ensures ScanFrom(cells, at, g.dataEnd, es) == ScanFrom(cells, at, g.dataEnd, es + [e])
    ensures End(es + [e]) == End(es) + Size(e)
    ensures FirstId(es + [e]) == (if es == [] then e.id else FirstId(es)) && LastId(es + [e]) == e.id
    ensures Sample(es + [e]) == if |es| % STRIDE == 0 then Sample(es) + [ItemOf(e, End(es))] else Sample(es)
    ensures |es| % STRIDE == 0 ==> IndexCount(|es|) < g.indexCapacity
  {
    ChainExtend(cells, at, g.dataEnd, es, e);
    SampleExtend(es, e);
    IndexNeverFull(g, |es| + 1);
  }

  /** Rebuilds a segment's descriptor, and on request its sparse index, from the entry area alone. With a sealed prefix
      it fails unless the run reaches exactly the boundary the older footer declared. */
  method ScanSegment(cells: Cells, at: Ident, g: Geometry, buildIndex: bool, prefix: Option<Footer>)
    returns (r: Option<Desc>, index: seq<IndexItem>)
    requires GeometryOk(g)
    ensures r.Some? <==> PrefixHolds(prefix, Scan(cells, at, g.dataEnd))
    ensures r.Some? ==>
      var es := Scan(cells, at, g.dataEnd);
      && r.value == DescOf(at, es, false, if buildIndex then IndexCount(|es|) else 0)
      && index == (if buildIndex then Sample(es) else [])
  {
    hide Sample, Chain, ScanFrom, PrefixHolds, IndexCount;
    ScanBegins(cells, at, g, prefix);
    var d := Desc(true, false, at.slot, at.gen, 0, 0, 0, DATA_START, 0);
    var offset := DATA_START;
    var prefixValid := prefix.None? || prefix.value.count == 0;
    ghost var es: seq<Entry> := [];
    index := [];
    while offset <= g.dataEnd - MIN_ENTRY
      invariant Chain(cells, at, g.dataEnd, es)
      invariant ScanFrom(cells, at, g.dataEnd, es) == Scan(cells, at, g.dataEnd)
      invariant offset == End(es)
      invariant d == DescOf(at, es, false, if buildIndex then IndexCount(|es|) else 0)
      invariant index == if buildIndex then Sample(es) else []
      invariant prefixValid <==> PrefixHolds(prefix, es)
      invariant prefixValid || (prefix.Some? && |es| < prefix.value.count)
      decreases g.dataEnd - offset
    {
      var one := ScanOneEntry(cells, at, g, offset);
      if one.None? {
        break;
      }
      var e := one.value;
      if d.count != 0 && e.id <= d.last {
        break;
      }
      ScanStep(cells, at, g, es, e);
      PrefixStep(prefix, es, e);
      if buildIndex && d.count % STRIDE == 0 {
        index := AddSparseIndexEntry(index, g.indexCapacity, e, offset);
      }
      offset := offset + Size(e);
      es := es + [e];
      d := Desc(true, false, at.slot, at.gen, if d.count == 0 then e.id else d.first, e.id, d.count + 1, offset,
                if buildIndex then |index| else 0);
      if prefix.Some? && d.count == prefix.value.count {
        if d.first != prefix.value.first || d.last != prefix.value.last || d.dataEnd != prefix.value.dataEnd {
          ScanRejects(cells, at, g, prefix, es);
          r := None;
          return;
        }
        prefixValid := true;
      }
    }
    ScanEnds(cells, at, g, es);
    r := if prefixValid then Some(d) else None;
  }

  /** Once the run is as long as the older footer's count, what follows cannot change the verdict. */
  lemma PrefixSettled(prefix: Option<Footer>, es: seq<Entry>, longer: seq<Entry>)
    requires es <= longer
    requires prefix.Some? && prefix.value.count > 0 ==> prefix.value.count <= |es|
    ensures PrefixHolds(prefix, longer) <==> PrefixHolds(prefix, es)
  {
    if prefix.Some? && prefix.value.count != 0 {
      assert longer[..prefix.value.count] == es[..prefix.value.count];
    }
  }

  lemma PrefixAtBoundary(prefix: Option<Footer>, es: seq<Entry>)
    requires prefix.Some? && prefix.value.count == |es| > 0
    ensures PrefixHolds(prefix, es) <==>
            prefix.value.first == FirstId(es) && prefix.value.last == LastId(es) && prefix.value.dataEnd == End(es)
  {
  }

  /** One more record, seen by the older footer: only the record that reaches the footer's count decides. */
  lemma PrefixStep(prefix: Option<Footer>, es: seq<Entry>, e: Entry)
    requires PrefixHolds(prefix, es) || (prefix.Some? && |es| < prefix.value.count)
    ensures prefix.Some? && |es| + 1 == prefix.value.count ==>
      (PrefixHolds(prefix, es + [e]) <==>
       prefix.value.first == FirstId(es + [e]) && prefix.value.last == e.id && prefix.value.dataEnd == End(es + [e]))
    ensures prefix.None? || |es| + 1 != prefix.value.count ==>
            (PrefixHolds(prefix, es + [e]) <==> PrefixHolds(prefix, es))
  {
    if prefix.Some? && prefix.value.count == |es| + 1 {
      PrefixAtBoundary(prefix, es + [e]);
    } else if PrefixHolds(prefix, es) {
      PrefixSettled(prefix, es, es + [e]);
    }
  }

  lemma ScanBegins(cells: Cells, at: Ident, g: Geometry, prefix: Option<Footer>)
    requires GeometryOk(g)
    ensures PrefixHolds(prefix, []) <==> prefix.None? || prefix.value.count == 0
    ensures Chain(cells, at, g.dataEnd, []) && Scan(cells, at, g.dataEnd) == ScanFrom(cells, at, g.dataEnd, [])
    ensures Sample([]) == [] && IndexCount(0) == 0
  {
  }

  lemma ScanEnds(cells: Cells, at: Ident, g: Geometry, es: seq<Entry>)
    requires End(es) + MIN_ENTRY <= g.dataEnd ==> !Continues(cells, at, g.dataEnd, es)
    ensures ScanFrom(cells, at, g.dataEnd, es) == es
  {
  }

  lemma ScanRejects(cells: Cells, at: Ident, g: Geometry, prefix: Option<Footer>, es: seq<Entry>)
    requires Chain(cells, at, g.dataEnd, es) && Scan(cells, at, g.dataEnd) == ScanFrom(cells, at, g.dataEnd, es)
    requires prefix.Some? && prefix.value.count == |es| && !PrefixHolds(prefix, es)
    ensures !PrefixHolds(prefix, Scan(cells, at, g.dataEnd))
  {
    ScanFromIsScan(cells, at, g.dataEnd, es);
    PrefixSettled(prefix, es, Scan(cells, at, g.dataEnd));
  }
}
