/** Facts about the entries a snapshot shows, used by the read path. */
module ReadFacts {
  import opened Layout
  import opened Segment
  import opened Device
  import opened Protocol
  import opened Runs
  import opened Memory
  import opened Snapshots
  import opened Lookup

  // ---------- The runs of a snapshot ----------

  function View(p: P): seq<seq<Entry>> { Extend(p.l, p.buf).segs }

  lemma ViewRuns(p: P)
    requires p.l.segs != []
    ensures |View(p)| == |p.l.segs| && Flat(View(p)) == Visible(p)
    ensures forall k :: 0 <= k < |View(p)| ==> View(p)[k] == RunOf(p, k)
  {
    FlatExtend(p.l, p.buf);
  }

  ghost predicate RunOk(p: P, k: nat)
    requires k < |p.l.segs|
  {
    && Increasing(RunOf(p, k)) && End(RunOf(p, k)) <= p.d.g.dataEnd
    && (forall i :: 0 <= i < |RunOf(p, k)| ==> Accepts(RunOf(p, k)[i], IdentOf(p, k)))
  }

  lemma RunsOk(p: P, k: nat)
    requires Inv(p) && p.mode == Live && k < |p.l.segs|
    ensures RunOk(p, k) && GeometryOk(p.d.g)
  {
    AtRank(p.d, p.l, p.boot, p.last, k);
    if k + 1 == |p.l.segs| {
      var run := TopRun(p);
      forall i | 0 <= i < |run| ensures Accepts(run[i], IdentOf(p, k)) {
        if i < |LastSeg(p.l)| {
          assert run[i] == LastSeg(p.l)[i];
        }
      }
    }
  }

  lemma RunsOrdered(p: P, a: nat, b: nat, i: nat, j: nat)
    requires Inv(p) && p.mode == Live && a < b < |p.l.segs| && i < |RunOf(p, a)| && j < |RunOf(p, b)|
    ensures RunOf(p, a)[i].id < RunOf(p, b)[j].id
  {
    if b + 1 == |p.l.segs| && j >= |LastSeg(p.l)| {
      assert TopRun(p)[j] == p.buf[j - |LastSeg(p.l)|];
    }
  }

  /** What a reader is shown is a list of runs in ID order. */
  lemma ViewSorted(p: P)
    requires Inv(p) && p.mode == Live && p.l.segs != []
    ensures Sorted(View(p))
  {
    ViewRuns(p);
    forall k | 0 <= k < |View(p)| ensures Increasing(View(p)[k]) {
      RunsOk(p, k);
    }
    forall a, b, i, j {:trigger View(p)[a][i], View(p)[b][j]} |
      0 <= a < b < |View(p)| && 0 <= i < |View(p)[a]| && 0 <= j < |View(p)[b]|
      ensures View(p)[a][i].id < View(p)[b][j].id
    {
      RunsOrdered(p, a, b, i, j);
    }
  }

  ghost predicate TimelyRun(run: seq<Entry>)
  {
    forall i, j :: 0 <= i <= j < |run| && Boot(run[i].id) == Boot(run[j].id) ==> run[i].uptime <= run[j].uptime
  }

  lemma VisibleTimely(p: P, x: Entry, y: Entry)
    requires Inv(p) && x in Visible(p) && y in Visible(p) && x.id < y.id && Boot(x.id) == Boot(y.id)
    ensures x.uptime <= y.uptime
  {
    HistoryMember(p, x);
    HistoryMember(p, y);
    HistorySorted(p);
    hide Inv, Visible;
    var all := p.hist + p.buf;
    var i :| 0 <= i < |all| && all[i] == x;
    var j :| 0 <= j < |all| && all[j] == y;
    assert i < j;
  }

  lemma HistorySorted(p: P)
    requires Inv(p)
    ensures Increasing(p.hist + p.buf) && Timely(p.hist + p.buf)
  {
  }

  lemma HistoryMember(p: P, x: Entry)
    requires Inv(p) && x in Visible(p)
    ensures x in p.hist + p.buf
  {
    var flat := Flat(p.l.segs);
    if x in flat {
      assert p.hist[|p.hist| - |flat|..] == flat;
    }
  }

  lemma VisibleSequenced(p: P, x: Entry)
    requires Inv(p) && x in Visible(p)
    ensures Sequenced(x.id)
  {
    HistoryMember(p, x);
    var all := p.hist + p.buf;
    var i :| 0 <= i < |all| && all[i] == x;
    assert Sequenced(all[i].id);
  }

  lemma VisibleFits(p: P, x: Entry)
    requires Inv(p) && x in Visible(p)
    ensures x.id <= U64_MAX && x.uptime <= U64_MAX
  {
    HistoryMember(p, x);
    var all := p.hist + p.buf;
    var i :| 0 <= i < |all| && all[i] == x;
    assert all[i].id <= p.last;
    IdFits(p.last, p.boot);
  }

  lemma IdFits(id: nat, boot: nat)
    requires Boot(id) <= boot <= BOOT_MASK
    ensures id <= U64_MAX
  {
  }

  /** A snapshot shows entries in increasing ID. */
  lemma VisibleIncreasing(p: P)
    requires Inv(p)
    ensures Increasing(Visible(p))
  {
    var all, n := p.hist + p.buf, |p.hist| - |Flat(p.l.segs)|;
    assert Visible(p) == all[n..];
  }

  lemma RunsTimely(p: P, k: nat)
    requires Inv(p) && p.mode == Live && k < |p.l.segs|
    ensures TimelyRun(RunOf(p, k))
  {
    hide Inv, Visible, Flat;
    var run := RunOf(p, k);
    RunsOk(p, k);
    ViewRuns(p);
    assert View(p)[k] == run;
    hide View, RunOf;
    forall i, j | 0 <= i <= j < |run| && Boot(run[i].id) == Boot(run[j].id) ensures run[i].uptime <= run[j].uptime {
      if i < j {
        FlatMember(View(p), run[i]);
        FlatMember(View(p), run[j]);
        VisibleTimely(p, run[i], run[j]);
      }
    }
  }

  // ---------- Reading one record through a snapshot ----------

  /** The buffered entry that starts at this distance from the buffer's start. */
  function BufferAt(buf: seq<Entry>, distance: nat): Option<Entry>
  {
    if buf == [] then None
    else if distance == Span(buf[..|buf| - 1]) then Some(buf[|buf| - 1])
    else BufferAt(buf[..|buf| - 1], distance)
  }

  lemma {:induction false} BufferHit(buf: seq<Entry>, j: nat)
    requires j < |buf|
    ensures BufferAt(buf, Span(buf[..j])) == Some(buf[j])
  {
    var k := |buf| - 1;
    if j < k {
      assert buf[..k][..j] == buf[..j] && buf[..k][..k] == buf[..k];
      OffMonotone(buf[..k], j, k);
      BufferHit(buf[..k], j);
    }
  }

  /** The record the reader finds at an offset: from the copied buffer where that covers it, from the disk elsewhere; a
      record that straddles the buffer's start cannot be read. */
  function CellAt(s: Snapshot, at: Ident, d: Disk, offset: nat): Option<Entry>
  {
    var overlaid := at.slot == s.active.slot && at.gen == s.active.gen && s.buf != [];
    if overlaid && offset >= s.bufOffset then BufferAt(s.buf, offset - s.bufOffset)
    else if at.slot < |d.files| && offset in d.files[at.slot].cells then
      var e := d.files[at.slot].cells[offset];
      if overlaid && offset + Size(e) > s.bufOffset then None else Some(e)
    else None
  }

  /** On any disk that serves the snapshot, the reader finds each entry of each run at its offset. */
  lemma CellServed(p: P, s: Snapshot, d: Disk, k: nat, i: nat)
    requires SnapshotOf(p, s) && Serves(d, p) && k < |p.l.segs| && i < |RunOf(p, k)|
    ensures CellAt(s, IdentOf(p, k), d, Off(RunOf(p, k), i)) == Some(RunOf(p, k)[i])
    ensures Off(RunOf(p, k), i) + Size(RunOf(p, k)[i]) == Off(RunOf(p, k), i + 1) <= End(RunOf(p, k))
  {
    var run := RunOf(p, k);
    OffStep(run, i);
    OffMonotone(run, i + 1, |run|);
    assert ServesRank(d, p, k);
    if k + 1 == |p.l.segs| {
      TopCellServed(p, s, d, i);
    }
  }

  lemma TopCellServed(p: P, s: Snapshot, d: Disk, i: nat)
    requires SnapshotOf(p, s) && p.l.segs != [] && i < |TopRun(p)|
    requires ServesRank(d, p, |p.l.segs| - 1)
    ensures CellAt(s, IdentOf(p, |p.l.segs| - 1), d, Off(TopRun(p), i)) == Some(TopRun(p)[i])
  {
    hide Inv, SegmentsOk, LoadHeader, LoadFooter, IndexMatches, Span;
    var es := LastSeg(p.l);
    if i < |es| {
      OffPrefix(es, p.buf, i);
      OffStep(es, i);
      OffMonotone(es, i + 1, |es|);
    } else {
      BufferedOffset(es, p.buf, i - |es|);
      BufferHit(p.buf, i - |es|);
    }
  }

  lemma BufferedOffset(es: seq<Entry>, buf: seq<Entry>, j: nat)
    requires j < |buf|
    ensures Off(es + buf, |es| + j) == End(es) + Span(buf[..j])
  {
    assert (es + buf)[..|es| + j] == es + buf[..j];
    SpanAppend(es, buf[..j]);
    assert es[..|es|] == es;
  }

  // ---------- The sparse index ----------

  lemma SampleAt(run: seq<Entry>, m: nat)
    requires m < |Sample(run)|
    ensures STRIDE * m < |run| && Sample(run)[m] == ItemOf(run[STRIDE * m], Off(run, STRIDE * m))
  {
  }

  predicate ItemOk(d: Desc, limit: nat, item: IndexItem)
  {
    item.reserved == 0 && d.first <= item.id <= d.last && DATA_START <= item.offset < limit && item.offset % 4 == 0
  }

  predicate ItemsOrdered(a: IndexItem, b: IndexItem)
  {
    a.id < b.id && a.offset < b.offset && (Boot(a.id) == Boot(b.id) ==> a.uptime <= b.uptime)
  }

  /** What the reader demands of an index before it uses it. */
  predicate IndexConsistent(d: Desc, index: seq<IndexItem>)
  {
    if d.count == 0 then index == []
    else
      && (d.count - 1) / STRIDE + 1 == d.indexCount == |index|
      && (forall m :: 0 <= m < |index| ==> ItemOk(d, d.dataEnd, index[m]))
      && (forall m :: 0 < m < |index| ==> ItemsOrdered(index[m - 1], index[m]))
      && index[0].id == d.first && index[0].offset == DATA_START
  }

  lemma {:induction false} SpanAligned(es: seq<Entry>)
    ensures Span(es) % 4 == 0
  {
    if es != [] {
      SpanAligned(es[..|es| - 1]);
    }
  }

  lemma ItemConsistent(run: seq<Entry>, d: Desc, m: nat)
    requires Increasing(run) && run != [] && d.first == FirstId(run) && d.last == LastId(run) && d.dataEnd == End(run)
    requires m < |Sample(run)|
    ensures ItemOk(d, d.dataEnd, Sample(run)[m])
  {
    SampleAt(run, m);
    OffMonotone(run, STRIDE * m, |run|);
    SpanAligned(run[..STRIDE * m]);
  }

  lemma ItemsConsistent(run: seq<Entry>, m: nat)
    requires Increasing(run) && TimelyRun(run) && 0 < m < |Sample(run)|
    ensures ItemsOrdered(Sample(run)[m - 1], Sample(run)[m])
  {
    SampleAt(run, m);
    SampleAt(run, m - 1);
    OffMonotone(run, STRIDE * (m - 1), STRIDE * m);
  }

  /** The index the store keeps always passes. */
  lemma SampleConsistent(at: Ident, run: seq<Entry>, sealed: bool)
    requires Increasing(run) && TimelyRun(run)
    ensures IndexConsistent(DescOf(at, run, sealed, IndexCount(|run|)), Sample(run))
  {
    if run != [] {
      var d := DescOf(at, run, sealed, IndexCount(|run|));
      forall m | 0 <= m < |Sample(run)| ensures ItemOk(d, d.dataEnd, Sample(run)[m]) {
        ItemConsistent(run, d, m);
      }
      forall m | 0 < m < |Sample(run)| ensures ItemsOrdered(Sample(run)[m - 1], Sample(run)[m]) {
        ItemsConsistent(run, m);
      }
      SampleAt(run, 0);
    }
  }
}
