/** What recovery reads back from a disk, as a relation between the disk and the log it yields. */
module Recovery {
  import opened Layout
  import opened Segment
  import opened Device
  import opened Protocol

  /** Every slot has at least one intact header; otherwise initialisation fails. */
  predicate HeadersLoad(d: Disk)
  {
    forall i :: 0 <= i < |d.files| ==> LoadHeader(d.files[i], d.store, i).Some?
  }

  /** Contents recovered for a slot of generation at.gen: by footer when footer and index agree, otherwise by scan,
      where an existing footer's boundary must be met. */
  ghost predicate Shows(g: Geometry, file: SlotFile, at: Ident, es: seq<Entry>)
  {
    match LoadFooter(file, at, g)
    case None => IsScan(file.cells, at, g.dataEnd, es)
    case Some(f) =>
      if IndexMatches(file, f) then
        Chain(file.cells, at, g.dataEnd, es) && FooterDesc(f) == DescOf(at, es, true, f.indexCount)
      else
        IsScan(file.cells, at, g.dataEnd, es) && PrefixHolds(Some(f), es)
  }

  ghost predicate SlotShows(d: Disk, oldest: nat, i: nat, l: Log)
    requires i < |d.files| && LoadHeader(d.files[i], d.store, i).Some?
  {
    var gen := LoadHeader(d.files[i], d.store, i).value;
    var k := RankOf(l.first, i, |d.files|);
    if gen == 0 || (oldest != 0 && gen < oldest) then k >= |l.segs|
    else k < |l.segs| && gen == l.base + k && Shows(d.g, d.files[i], Ident(d.store, i, gen), l.segs[k])
  }

  ghost predicate Recovers(d: Disk, l: Log)
  {
    && Shape(l, |d.files|)
    && LoadSuper(d).Some?
    && HeadersLoad(d)
    && forall i :: 0 <= i < |d.files| ==> SlotShows(d, LoadSuper(d).value.oldestGen, i, l)
  }

  lemma HoldsShows(g: Geometry, file: SlotFile, at: Ident, es: seq<Entry>)
    requires Holds(g, file, at, es)
    ensures Shows(g, file, at, es)
  {
    var f := LoadFooter(file, at, g);
    if f.Some? {
      assert f.value == FooterOf(at, es);
      assert es[..|es|] == es;
    }
  }

  /** A disk that satisfies the invariant is recovered to the log it holds, unless some slot lost both headers. */
  lemma InvRecovers(d: Disk, l: Log, boot: nat, last: nat)
    requires DiskInv(d, l, boot, last) && HeadersLoad(d)
    ensures Recovers(d, l)
  {
    forall i | 0 <= i < |d.files| ensures SlotShows(d, LoadSuper(d).value.oldestGen, i, l) {
      assert SlotOk(d.g, d.store, |d.files|, i, d.files[i], l);
      var k := RankOf(l.first, i, |d.files|);
      if k < |l.segs| {
        HoldsShows(d.g, d.files[i], Ident(d.store, i, l.base + k), l.segs[k]);
      }
    }
  }

  lemma {:induction false} ChainUnique(cells: Cells, at: Ident, limit: nat, a: seq<Entry>, b: seq<Entry>, k: nat)
    requires Chain(cells, at, limit, a) && Chain(cells, at, limit, b) && |a| == |b| && k <= |a|
    ensures Off(a, k) == Off(b, k) && forall i :: 0 <= i < k ==> a[i] == b[i]
  {
    if k > 0 {
      ChainUnique(cells, at, limit, a, b, k - 1);
      OffStep(a, k - 1);
      OffStep(b, k - 1);
    }
  }

  lemma ShowsUnique(g: Geometry, file: SlotFile, at: Ident, a: seq<Entry>, b: seq<Entry>)
    requires GeometryOk(g) && Shows(g, file, at, a) && Shows(g, file, at, b)
    ensures a == b
  {
    var f := LoadFooter(file, at, g);
    if f.Some? && IndexMatches(file, f.value) {
      ChainUnique(file.cells, at, g.dataEnd, a, b, |a|);
    } else {
      ScanIsUnique(file.cells, at, g.dataEnd, a);
      ScanIsUnique(file.cells, at, g.dataEnd, b);
    }
  }

  lemma BaseUnique(d: Disk, a: Log, b: Log)
    requires Recovers(d, a) && Recovers(d, b)
    ensures b.base <= a.base
    ensures a.base == b.base ==> a.first == b.first
  {
    RankSlot(a, 0, |d.files|);
    assert SlotShows(d, LoadSuper(d).value.oldestGen, a.first, a);
    assert SlotShows(d, LoadSuper(d).value.oldestGen, a.first, b);
    SlotRank(b, a.first, |d.files|);
  }

  lemma RankUnique(d: Disk, a: Log, b: Log, k: nat)
    requires GeometryOk(d.g) && Recovers(d, a) && Recovers(d, b) && a.base == b.base && a.first == b.first &&
             k < |d.files|
    ensures k < |a.segs| <==> k < |b.segs|
    ensures k < |a.segs| ==> a.segs[k] == b.segs[k]
  {
    hide Shows;
    RankSlot(a, k, |d.files|);
    var i := SlotAt(a.first, k, |d.files|);
    assert SlotShows(d, LoadSuper(d).value.oldestGen, i, a);
    assert SlotShows(d, LoadSuper(d).value.oldestGen, i, b);
    if k < |a.segs| {
      ShowsUnique(d.g, d.files[i], Ident(d.store, i, a.base + k), a.segs[k], b.segs[k]);
    }
  }

  /** A disk determines at most one log. */
  lemma RecoversUnique(d: Disk, a: Log, b: Log)
    requires GeometryOk(d.g) && Recovers(d, a) && Recovers(d, b)
    ensures a == b
  {
    BaseUnique(d, a, b);
    BaseUnique(d, b, a);
    if |a.segs| < |d.files| {
      RankUnique(d, a, b, |a.segs|);
    }
    if |b.segs| < |d.files| {
      RankUnique(d, a, b, |b.segs|);
    }
    forall k | 0 <= k < |a.segs| ensures a.segs[k] == b.segs[k] {
      RankUnique(d, a, b, k);
    }
    assert a.segs == b.segs;
  }

  /** The fast path is exact: whatever footer recovery accepts for a retained segment, its descriptor is the one a full
      scan of the entry area would rebuild, and so is the stored index whenever its checksum matches. */
  lemma FastPathIsExact(d: Disk, l: Log, boot: nat, last: nat, k: nat)
    requires DiskInv(d, l, boot, last) && k < |l.segs|
    ensures SlotAt(l.first, k, |d.files|) < |d.files|
    ensures
      var i := SlotAt(l.first, k, |d.files|);
      var at := Ident(d.store, i, l.base + k);
      var f := LoadFooter(d.files[i], at, d.g);
      var scanned := Scan(d.files[i].cells, at, d.g.dataEnd);
      && scanned == l.segs[k]
      && (f.Some? ==>
            && FooterDesc(f.value) == DescOf(at, scanned, true, IndexCount(|scanned|))
            && PrefixHolds(f, scanned)
            && (IndexMatches(d.files[i], f.value) ==> d.files[i].index[..f.value.indexCount] == Sample(scanned)))
  {
    AtRank(d, l, boot, last, k);
    var i := SlotAt(l.first, k, |d.files|);
    ScanIsUnique(d.files[i].cells, Ident(d.store, i, l.base + k), d.g.dataEnd, l.segs[k]);
    HoldsShows(d.g, d.files[i], Ident(d.store, i, l.base + k), l.segs[k]);
    var es := l.segs[k];
    assert es[..|es|] == es;
  }
}
