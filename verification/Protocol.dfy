/** The durable protocol of the store: which write may follow which, what recovery reads
    back, and what every run keeps. */
module Protocol {
  import opened Layout
  import opened Segment
  import opened Device

  /** The retained log: generation base + k holds segs[k], in the k-th slot after `first`, cyclically. */
  datatype Log = Log(base: nat, first: nat, segs: seq<seq<Entry>>)

  function SlotAt(first: nat, k: nat, slots: nat): nat
  {
    if first + k < slots then first + k else first + k - slots
  }

  function RankOf(first: nat, slot: nat, slots: nat): nat
  {
    if slot >= first then slot - first else if slot + slots - first >= 0 then slot + slots - first else 0
  }

  function Top(l: Log): nat { if l.segs == [] then l.base else l.base + |l.segs| - 1 }

  function TopSlot(l: Log, slots: nat): nat { SlotAt(l.first, if l.segs == [] then 0 else |l.segs| - 1, slots) }

  function NextSlot(l: Log, slots: nat): nat { SlotAt(l.first, |l.segs|, slots) }

  function LastSeg(l: Log): seq<Entry> { if l.segs == [] then [] else l.segs[|l.segs| - 1] }

  function Extend(l: Log, es: seq<Entry>): Log
  {
    if l.segs == [] then l else l.(segs := l.segs[..|l.segs| - 1] + [LastSeg(l) + es])
  }

  function Retire(l: Log, slots: nat): Log
  {
    if l.segs == [] then l else Log(l.base + 1, SlotAt(l.first, 1, slots), l.segs[1..])
  }

  function Open(l: Log): Log { l.(segs := l.segs + [[]]) }

  // ---------- What the disk holds ----------

  /** Nothing bound to this slot is from generation `bound` or later. */
  ghost predicate Binds(file: SlotFile, store: nat, slot: nat, bound: nat)
  {
    && (HeaderValid(file.h0, store, slot) ==> file.h0.value.gen < bound)
    && (HeaderValid(file.h1, store, slot) ==> file.h1.value.gen < bound)
    && (forall o :: o in file.cells && file.cells[o].at.store == store && file.cells[o].at.slot == slot ==>
          file.cells[o].at.gen < bound)
    && (file.f0.Some? && file.f0.value.at.store == store && file.f0.value.at.slot == slot ==>
        file.f0.value.at.gen < bound)
    && (file.f1.Some? && file.f1.value.at.store == store && file.f1.value.at.slot == slot ==>
        file.f1.value.at.gen < bound)
  }

  predicate Bound(f: Option<Footer>, at: Ident) { f.Some? && f.value.at == at }

  predicate HasFooter(file: SlotFile, at: Ident) { Bound(file.f0, at) || Bound(file.f1, at) }

  /** The slot holds this generation, its entry area scans to exactly `es`, and any footer
      of this generation says so. */
  ghost predicate Holds(g: Geometry, file: SlotFile, at: Ident, es: seq<Entry>)
  {
    && LoadHeader(file, at.store, at.slot) == Some(at.gen)
    && Binds(file, at.store, at.slot, at.gen + 1)
    && IsScan(file.cells, at, g.dataEnd, es)
    && (Bound(file.f0, at) ==> file.f0.value == FooterOf(at, es))
    && (Bound(file.f1, at) ==> file.f1.value == FooterOf(at, es))
  }

  ghost predicate SlotOk(g: Geometry, store: nat, slots: nat, i: nat, file: SlotFile, l: Log)
  {
    var k := RankOf(l.first, i, slots);
    if k < |l.segs| then Holds(g, file, Ident(store, i, l.base + k), l.segs[k]) else Binds(file, store, i, l.base)
  }

  ghost predicate SlotsOk(g: Geometry, store: nat, files: seq<SlotFile>, l: Log)
  {
    forall i :: 0 <= i < |files| ==> SlotOk(g, store, |files|, i, files[i], l)
  }

  predicate Parity(c: Option<Super>, slots: nat, copy: nat)
  {
    CopyValid(c, slots) ==> c.value.sgen % 2 == copy
  }

  ghost predicate SuperOk(d: Disk, l: Log, boot: nat)
  {
    && Parity(d.sb0, |d.files|, 0)
    && Parity(d.sb1, |d.files|, 1)
    && LoadSuper(d).Some?
    && var s := LoadSuper(d).value;
       && s.oldestGen == l.base
       && s.activeGen <= Top(l)
       && s.nextGen <= Top(l) + 1
       && s.boot == boot
  }

  ghost predicate IdsWithin(segs: seq<seq<Entry>>, last: nat)
  {
    forall k, i :: 0 <= k < |segs| && 0 <= i < |segs[k]| ==> segs[k][i].id <= last
  }

  /** Records of the newest generation, including ones a crash cut off from the run, were issued by now. */
  ghost predicate TopIssued(file: SlotFile, at: Ident, last: nat)
  {
    forall o :: o in file.cells && file.cells[o].at == at ==> file.cells[o].id <= last
  }

  ghost predicate Shape(l: Log, slots: nat)
  {
    2 <= slots && 1 <= l.base && l.first < slots && 1 <= |l.segs| <= slots
  }

  function TopIdent(store: nat, slots: nat, l: Log): Ident { Ident(store, TopSlot(l, slots), Top(l)) }

  ghost predicate DiskInv(d: Disk, l: Log, boot: nat, last: nat)
  {
    && GeometryOk(d.g)
    && Shape(l, |d.files|)
    && SuperOk(d, l, boot)
    && SlotsOk(d.g, d.store, d.files, l)
    && Ordered(l.segs)
    && IdsWithin(l.segs, last)
    && TopIssued(d.files[TopSlot(l, |d.files|)], TopIdent(d.store, |d.files|, l), last)
    && Boot(last) <= boot <= BOOT_MASK
  }

  // ---------- Slot arithmetic ----------

  lemma RankSlot(l: Log, k: nat, slots: nat)
    requires Shape(l, slots) && k < slots
    ensures SlotAt(l.first, k, slots) < slots && RankOf(l.first, SlotAt(l.first, k, slots), slots) == k
  {
  }

  lemma SlotRank(l: Log, i: nat, slots: nat)
    requires Shape(l, slots) && i < slots
    ensures RankOf(l.first, i, slots) < slots && SlotAt(l.first, RankOf(l.first, i, slots), slots) == i
  {
  }

  lemma AtRank(d: Disk, l: Log, boot: nat, last: nat, k: nat)
    requires DiskInv(d, l, boot, last) && k < |l.segs|
    ensures SlotAt(l.first, k, |d.files|) < |d.files|
    ensures var i := SlotAt(l.first, k, |d.files|);
      Holds(d.g, d.files[i], Ident(d.store, i, l.base + k), l.segs[k])
  {
    RankSlot(l, k, |d.files|);
    assert SlotOk(d.g, d.store, |d.files|, SlotAt(l.first, k, |d.files|), d.files[SlotAt(l.first, k, |d.files|)], l);
  }

  // ---------- Crash outcomes, write by write ----------

  predicate SuperAllowed(d: Disk, l: Log, boot: nat, copy: nat, s: Super)
  {
    && LoadSuper(d).Some?
    && s.sgen == LoadSuper(d).value.sgen + 1
    && copy == s.sgen % 2
    && SuperValid(s, |d.files|)
    && (s.oldestGen == l.base || (s.oldestGen == l.base + 1 && |l.segs| >= 2))
    && s.activeGen <= Top(l)
    && s.nextGen <= Top(l) + 1
  }

  function LogAfterSuper(l: Log, slots: nat, s: Super): Log
  {
    if s.oldestGen == l.base then l else Retire(l, slots)
  }

  /** A superblock commit is atomic: any crash outcome loads either the previous superblock or the new one. */
  lemma SuperAtomic(d: Disk, l: Log, boot: nat, copy: nat, s: Super, c: Option<Super>)
    requires SuperOk(d, l, boot) && SuperAllowed(d, l, boot, copy, s)
    requires TornCopy(if copy == 0 then d.sb0 else d.sb1, s, c)
    ensures LoadSuper(SetSuper(d, copy, c)) == if c == Some(s) then Some(s) else LoadSuper(d)
    ensures Parity(SetSuper(d, copy, c).sb0, |d.files|, 0) && Parity(SetSuper(d, copy, c).sb1, |d.files|, 1)
  {
  }

  lemma RetireSlots(g: Geometry, store: nat, files: seq<SlotFile>, l: Log)
    requires Shape(l, |files|) && |l.segs| >= 2 && SlotsOk(g, store, files, l)
    ensures SlotsOk(g, store, files, Retire(l, |files|))
    ensures Shape(Retire(l, |files|), |files|)
    ensures TopSlot(Retire(l, |files|), |files|) == TopSlot(l, |files|)
  {
    var l' := Retire(l, |files|);
    forall i | 0 <= i < |files| ensures SlotOk(g, store, |files|, i, files[i], l') {
      assert SlotOk(g, store, |files|, i, files[i], l);
    }
  }

  lemma SuperTorn(d: Disk, l: Log, boot: nat, last: nat, copy: nat, s: Super, c: Option<Super>)
    requires DiskInv(d, l, boot, last) && SuperAllowed(d, l, boot, copy, s) && boot <= s.boot
    requires TornCopy(if copy == 0 then d.sb0 else d.sb1, s, c)
    ensures c == Some(s) ==> DiskInv(SetSuper(d, copy, c), LogAfterSuper(l, |d.files|, s), s.boot, last)
    ensures c != Some(s) ==> DiskInv(SetSuper(d, copy, c), l, boot, last)
  {
    SuperAtomic(d, l, boot, copy, s, c);
    var d' := SetSuper(d, copy, c);
    if c == Some(s) && s.oldestGen != l.base {
      var l' := Retire(l, |d.files|);
      RetireSlots(d.g, d.store, d.files, l);
    }
  }

  /** Replacing one slot file leaves the claims about the others alone. */
  lemma OtherSlots(d: Disk, l: Log, slot: nat, file: SlotFile, l': Log)
    requires slot < |d.files| && Shape(l, |d.files|)
    requires SlotsOk(d.g, d.store, d.files, l)
    requires l'.base == l.base && l'.first == l.first
    requires |l'.segs| >= |l.segs| && forall k :: 0 <= k < |l'.segs| && k != RankOf(l.first, slot, |d.files|) ==>
               k < |l.segs| && l'.segs[k] == l.segs[k]
    requires SlotOk(d.g, d.store, |d.files|, slot, file, l')
    ensures SlotsOk(d.g, d.store, d.files[slot := file], l')
  {
    var files' := d.files[slot := file];
    forall i | 0 <= i < |files'| ensures SlotOk(d.g, d.store, |files'|, i, files'[i], l') {
      if i != slot {
        assert SlotOk(d.g, d.store, |d.files|, i, d.files[i], l);
        SlotRank(l, i, |d.files|);
        SlotRank(l, slot, |d.files|);
      }
    }
  }

  function SetFile(d: Disk, slot: nat, file: SlotFile): Disk
    requires slot < |d.files|
  {
    d.(files := d.files[slot := file])
  }

  /** Rewriting one slot file without touching the run it holds keeps the disk invariant. */
  lemma SameRun(d: Disk, l: Log, boot: nat, last: nat, slot: nat, file: SlotFile)
    requires DiskInv(d, l, boot, last) && slot < |d.files|
    requires file.cells == d.files[slot].cells
    requires SlotOk(d.g, d.store, |d.files|, slot, file, l)
    ensures DiskInv(SetFile(d, slot, file), l, boot, last)
  {
    OtherSlots(d, l, slot, file, l);
    RankSlot(l, |l.segs| - 1, |d.files|);
  }

  lemma IndexTorn(d: Disk, l: Log, boot: nat, last: nat, slot: nat, index: seq<IndexItem>)
    requires DiskInv(d, l, boot, last) && slot < |d.files|
    ensures DiskInv(SetFile(d, slot, d.files[slot].(index := index)), l, boot, last)
  {
    assert SlotOk(d.g, d.store, |d.files|, slot, d.files[slot], l);
    SameRun(d, l, boot, last, slot, d.files[slot].(index := index));
  }

  lemma FooterTorn(d: Disk, l: Log, boot: nat, last: nat, k: nat, slot: nat, copy: nat, f: Footer, c: Option<Footer>)
    requires DiskInv(d, l, boot, last) && k < |l.segs| && slot == SlotAt(l.first, k, |d.files|)
    requires f == FooterOf(Ident(d.store, slot, l.base + k), l.segs[k])
    requires slot < |d.files| && TornCopy(if copy == 0 then d.files[slot].f0 else d.files[slot].f1, f, c)
    ensures DiskInv(SetFile(d, slot, SetFooter(d.files[slot], copy, c)), l, boot, last)
  {
    RankSlot(l, k, |d.files|);
    AtRank(d, l, boot, last, k);
    hide DiskInv, FooterOf, IsScan;
    SameRun(d, l, boot, last, slot, SetFooter(d.files[slot], copy, c));
  }

  /** Activation, second copy: whatever becomes of it, the slot already belongs to the new generation. */
  lemma SecondHeaderTorn(d: Disk, l: Log, boot: nat, last: nat, slot: nat, c: Option<Ident>)
    requires DiskInv(d, l, boot, last) && slot == TopSlot(l, |d.files|) && slot < |d.files|
    requires HeaderValid(d.files[slot].h0, d.store, slot) && d.files[slot].h0.value.gen == Top(l)
    requires TornCopy(d.files[slot].h1, Ident(d.store, slot, Top(l)), c)
    ensures DiskInv(SetFile(d, slot, d.files[slot].(h1 := c)), l, boot, last)
  {
    RankSlot(l, |l.segs| - 1, |d.files|);
    AtRank(d, l, boot, last, |l.segs| - 1);
    SameRun(d, l, boot, last, slot, d.files[slot].(h1 := c));
  }

  lemma EmptyRun(g: Geometry, file: SlotFile, at: Ident)
    requires GeometryOk(g) && Binds(file, at.store, at.slot, at.gen)
    ensures IsScan(file.cells, at, g.dataEnd, [])
  {
  }

  lemma OpenedLog(l: Log, slots: nat, last: nat)
    requires Shape(l, slots) && |l.segs| < slots && Ordered(l.segs) && IdsWithin(l.segs, last)
    ensures Shape(Open(l), slots) && Ordered(Open(l).segs) && IdsWithin(Open(l).segs, last)
    ensures TopSlot(Open(l), slots) == NextSlot(l, slots) && Top(Open(l)) == Top(l) + 1
  {
  }

  lemma HoldsNothing(g: Geometry, file: SlotFile, at: Ident)
    requires GeometryOk(g) && Binds(file, at.store, at.slot, at.gen)
    ensures Holds(g, file.(h0 := Some(at)), at, []) && TopIssued(file.(h0 := Some(at)), at, 0)
  {
    EmptyRun(g, file, at);
  }

  /** Activation, first copy, when it arrives: the slot is seen as the new generation with no entries, because no record
      anywhere in it carries the new generation number. */
  lemma FirstHeaderArrives(d: Disk, l: Log, boot: nat, last: nat, slot: nat)
    requires DiskInv(d, l, boot, last) && |l.segs| < |d.files|
    requires slot == NextSlot(l, |d.files|) && slot < |d.files|
    ensures DiskInv(SetFile(d, slot, d.files[slot].(h0 := Some(Ident(d.store, slot, Top(l) + 1)))), Open(l), boot, last)
  {
    var at := Ident(d.store, slot, Top(l) + 1);
    var file := d.files[slot].(h0 := Some(at));
    RankSlot(l, |l.segs|, |d.files|);
    assert SlotOk(d.g, d.store, |d.files|, slot, d.files[slot], l);
    HoldsNothing(d.g, d.files[slot], at);
    OtherSlots(d, l, slot, file, Open(l));
    OpenedLog(l, |d.files|, last);
  }

  /** Activation, first copy, when it is lost or torn: the slot still is not retained. */
  lemma FirstHeaderLost(d: Disk, l: Log, boot: nat, last: nat, slot: nat, c: Option<Ident>)
    requires DiskInv(d, l, boot, last) && |l.segs| < |d.files|
    requires slot == NextSlot(l, |d.files|) && slot < |d.files|
    requires c == None || c == d.files[slot].h0
    ensures DiskInv(SetFile(d, slot, d.files[slot].(h0 := c)), l, boot, last)
  {
    RankSlot(l, |l.segs|, |d.files|);
    assert SlotOk(d.g, d.store, |d.files|, slot, d.files[slot], l);
    SameRun(d, l, boot, last, slot, d.files[slot].(h0 := c));
  }

  // ---------- Appending ----------

  /** Entries accepted for the newest segment but not yet written. */
  ghost predicate PendingOk(d: Disk, l: Log, boot: nat, buf: seq<Entry>)
    requires Shape(l, |d.files|)
  {
    var at := TopIdent(d.store, |d.files|, l);
    var file := d.files[at.slot];
    && NewRun(at, d.g.dataEnd, LastSeg(l) + buf, |LastSeg(l)|, MakeId(boot, 0))
    && TailBelow(file.cells, at, LastSeg(l), MakeId(boot, 0))
    && (forall i, k, j :: 0 <= i < |buf| && 0 <= k < |l.segs| && 0 <= j < |l.segs[k]| ==> l.segs[k][j].id < buf[i].id)
    && (buf != [] ==> !HasFooter(file, at))
  }

  lemma TopHolds(d: Disk, l: Log, boot: nat, last: nat)
    requires DiskInv(d, l, boot, last)
    ensures TopSlot(l, |d.files|) < |d.files|
    ensures RankOf(l.first, TopSlot(l, |d.files|), |d.files|) == |l.segs| - 1
    ensures Holds(d.g, d.files[TopSlot(l, |d.files|)], TopIdent(d.store, |d.files|, l), LastSeg(l))
  {
    RankSlot(l, |l.segs| - 1, |d.files|);
    AtRank(d, l, boot, last, |l.segs| - 1);
  }

  lemma HoldsAppended(g: Geometry, file: SlotFile, at: Ident, start: nat, buf: seq<Entry>, es: seq<Entry>, cells: Cells,
                      longer: seq<Entry>, last: nat)
    requires Holds(g, file, at, es) && TopIssued(file, at, last) && !HasFooter(file, at)
    requires forall i :: 0 <= i < |buf| ==> buf[i].at == at && buf[i].id <= last
    requires TornCells(file.cells, start, buf, cells) && IsScan(cells, at, g.dataEnd, longer)
    ensures Holds(g, file.(cells := cells), at, longer) && TopIssued(file.(cells := cells), at, last)
  {
    forall o | o in cells && (o !in file.cells || cells[o] != file.cells[o])
      ensures cells[o].at == at && cells[o].id <= last
    {
      var i := ImageOnly(start, buf, o);
    }
  }

  /** The newest slot after any outcome of the data write, given the run its entry area then scans to. */
  lemma TopAppended(d: Disk, l: Log, boot: nat, last: nat, buf: seq<Entry>, cells: Cells, more: seq<Entry>)
    requires DiskInv(d, l, boot, last) && PendingOk(d, l, boot, buf) && buf != []
    requires forall i :: 0 <= i < |buf| ==> buf[i].id <= last
    requires TornCells(d.files[TopSlot(l, |d.files|)].cells, End(LastSeg(l)), buf, cells)
    requires IsScan(cells, TopIdent(d.store, |d.files|, l), d.g.dataEnd, LastSeg(l) + more)
    ensures var slot := TopSlot(l, |d.files|);
      && slot < |d.files| && RankOf(l.first, slot, |d.files|) == |l.segs| - 1
      && Holds(d.g, d.files[slot].(cells := cells), TopIdent(d.store, |d.files|, l), LastSeg(l) + more)
      && TopIssued(d.files[slot].(cells := cells), TopIdent(d.store, |d.files|, l), last)
  {
    var at := TopIdent(d.store, |d.files|, l);
    TopHolds(d, l, boot, last);
    PendingBound(d, l, boot, buf);
    hide Holds, IsScan, TornCells, NewRun, TailBelow, SlotsOk, Ordered, IdsWithin;
    HoldsAppended(d.g, d.files[at.slot], at, End(LastSeg(l)), buf, LastSeg(l), cells, LastSeg(l) + more, last);
  }

  lemma AppendedSlot(d: Disk, l: Log, boot: nat, last: nat, buf: seq<Entry>, cells: Cells, more: seq<Entry>)
    requires DiskInv(d, l, boot, last) && PendingOk(d, l, boot, buf) && buf != []
    requires forall i :: 0 <= i < |buf| ==> buf[i].id <= last
    requires TornCells(d.files[TopSlot(l, |d.files|)].cells, End(LastSeg(l)), buf, cells)
    requires IsScan(cells, TopIdent(d.store, |d.files|, l), d.g.dataEnd, LastSeg(l) + more) && more <= buf
    ensures DiskInv(SetFile(d, TopSlot(l, |d.files|), d.files[TopSlot(l, |d.files|)].(cells := cells)), Extend(l, more),
                    boot, last)
  {
    TopAppended(d, l, boot, last, buf, cells, more);
    PendingAbove(d, l, boot, buf, more);
    hide PendingOk, TornCells, IsScan, Holds;
    ExtendOrdered(l, more, last);
    AppendedDisk(d, l, boot, last, TopSlot(l, |d.files|), d.files[TopSlot(l, |d.files|)].(cells := cells), more);
  }

  lemma PendingAbove(d: Disk, l: Log, boot: nat, buf: seq<Entry>, more: seq<Entry>)
    requires Shape(l, |d.files|) && PendingOk(d, l, boot, buf) && more <= buf
    ensures forall i, k, j :: 0 <= i < |more| && 0 <= k < |l.segs| && 0 <= j < |l.segs[k]| ==>
            l.segs[k][j].id < more[i].id
  {
    hide NewRun, TailBelow;
  }

  lemma AppendedDisk(d: Disk, l: Log, boot: nat, last: nat, slot: nat, file: SlotFile, more: seq<Entry>)
    requires DiskInv(d, l, boot, last) && slot == TopSlot(l, |d.files|) < |d.files|
    requires RankOf(l.first, slot, |d.files|) == |l.segs| - 1
    requires Holds(d.g, file, TopIdent(d.store, |d.files|, l), LastSeg(l) + more)
    requires TopIssued(file, TopIdent(d.store, |d.files|, l), last)
    requires Ordered(Extend(l, more).segs) && IdsWithin(Extend(l, more).segs, last)
    ensures DiskInv(SetFile(d, slot, file), Extend(l, more), boot, last)
  {
    hide Holds, TopIssued, Ordered, IdsWithin, Binds;
    OtherSlots(d, l, slot, file, Extend(l, more));
  }

  lemma PendingBound(d: Disk, l: Log, boot: nat, buf: seq<Entry>)
    requires Shape(l, |d.files|) && PendingOk(d, l, boot, buf)
    ensures forall i :: 0 <= i < |buf| ==> buf[i].at == TopIdent(d.store, |d.files|, l)
  {
    forall i | 0 <= i < |buf| ensures buf[i].at == TopIdent(d.store, |d.files|, l) {
      assert (LastSeg(l) + buf)[|LastSeg(l)| + i] == buf[i];
    }
  }

  lemma ExtendOrdered(l: Log, more: seq<Entry>, last: nat)
    requires l.segs != [] && Ordered(l.segs) && IdsWithin(l.segs, last)
    requires forall i :: 0 <= i < |more| ==> more[i].id <= last
    requires forall i, k, j :: 0 <= i < |more| && 0 <= k < |l.segs| && 0 <= j < |l.segs[k]| ==>
             l.segs[k][j].id < more[i].id
    ensures Ordered(Extend(l, more).segs) && IdsWithin(Extend(l, more).segs, last)
  {
    var segs := Extend(l, more).segs;
    var t := |segs| - 1;
    assert forall k :: 0 <= k < t ==> segs[k] == l.segs[k];
    forall a, b, i, j | 0 <= a < b < |segs| && 0 <= i < |segs[a]| && 0 <= j < |segs[b]|
      ensures segs[a][i].id < segs[b][j].id
    {
      if b == t && j >= |LastSeg(l)| {
        assert segs[b][j] == more[j - |LastSeg(l)|];
      }
    }
    forall k, i | 0 <= k < |segs| && 0 <= i < |segs[k]| ensures segs[k][i].id <= last {
      if k == t && i >= |LastSeg(l)| {
        assert segs[k][i] == more[i - |LastSeg(l)|];
      }
    }
  }

  lemma AppendSetup(d: Disk, l: Log, boot: nat, last: nat, buf: seq<Entry>)
    requires DiskInv(d, l, boot, last) && PendingOk(d, l, boot, buf)
    ensures TopSlot(l, |d.files|) < |d.files|
    ensures
      var all := LastSeg(l) + buf;
      var n := |LastSeg(l)|;
      var cells := d.files[TopSlot(l, |d.files|)].cells;
      && all[..n] == LastSeg(l) && all[n..] == buf && Off(all, n) == End(LastSeg(l))
      && IsScan(cells, TopIdent(d.store, |d.files|, l), d.g.dataEnd, all[..n])
      && NewRun(TopIdent(d.store, |d.files|, l), d.g.dataEnd, all, n, MakeId(boot, 0))
      && TailBelow(cells, TopIdent(d.store, |d.files|, l), all[..n], MakeId(boot, 0))
  {
    TopHolds(d, l, boot, last);
    OffPrefix(LastSeg(l), buf, |LastSeg(l)|);
    assert (LastSeg(l) + buf)[..|LastSeg(l)|] == LastSeg(l);
  }

  /** Power loss during a data write: the synced run survives, followed by a prefix of what was in flight. */
  lemma DataTorn(d: Disk, l: Log, boot: nat, last: nat, buf: seq<Entry>, cells: Cells) returns (k: nat)
    requires DiskInv(d, l, boot, last) && PendingOk(d, l, boot, buf) && buf != []
    requires forall i :: 0 <= i < |buf| ==> buf[i].id <= last
    requires TornCells(d.files[TopSlot(l, |d.files|)].cells, End(LastSeg(l)), buf, cells)
    ensures k <= |buf|
    ensures DiskInv(SetFile(d, TopSlot(l, |d.files|), d.files[TopSlot(l, |d.files|)].(cells := cells)),
                    Extend(l, buf[..k]), boot, last)
  {
    k := TornPrefix(d, l, boot, last, buf, cells);
    AppendedSlot(d, l, boot, last, buf, cells, buf[..k]);
  }

  lemma TornPrefix(d: Disk, l: Log, boot: nat, last: nat, buf: seq<Entry>, cells: Cells) returns (k: nat)
    requires DiskInv(d, l, boot, last) && PendingOk(d, l, boot, buf)
    requires TornCells(d.files[TopSlot(l, |d.files|)].cells, End(LastSeg(l)), buf, cells)
    ensures k <= |buf| && IsScan(cells, TopIdent(d.store, |d.files|, l), d.g.dataEnd, LastSeg(l) + buf[..k])
  {
    AppendSetup(d, l, boot, last, buf);
    var all := LastSeg(l) + buf;
    var n := |LastSeg(l)|;
    var at := TopIdent(d.store, |d.files|, l);
    var m := ScanAfterTornAppend(d.files[at.slot].cells, at, d.g.dataEnd, all, n, MakeId(boot, 0), cells);
    k := m - n;
    assert all[..m] == LastSeg(l) + buf[..k];
  }

  lemma WrittenRun(d: Disk, l: Log, boot: nat, last: nat, buf: seq<Entry>, cells: Cells)
    requires DiskInv(d, l, boot, last) && PendingOk(d, l, boot, buf)
    requires cells == Overwrite(d.files[TopSlot(l, |d.files|)].cells, End(LastSeg(l)), buf)
    ensures IsScan(cells, TopIdent(d.store, |d.files|, l), d.g.dataEnd, LastSeg(l) + buf)
    ensures TailBelow(cells, TopIdent(d.store, |d.files|, l), LastSeg(l) + buf, MakeId(boot, 0))
  {
    AppendSetup(d, l, boot, last, buf);
    var at := TopIdent(d.store, |d.files|, l);
    ScanAfterAppend(d.files[at.slot].cells, at, d.g.dataEnd, LastSeg(l) + buf, |LastSeg(l)|, MakeId(boot, 0));
  }

  /** A completed data write makes every pending entry durable, and leaves nothing behind it that a
      later scan could take for a continuation. */
  lemma DataWritten(d: Disk, l: Log, boot: nat, last: nat, buf: seq<Entry>, slot: nat, d': Disk)
    requires DiskInv(d, l, boot, last) && PendingOk(d, l, boot, buf) && buf != []
    requires forall i :: 0 <= i < |buf| ==> buf[i].id <= last
    requires slot == TopSlot(l, |d.files|) < |d.files|
    requires d' == SetFile(d, slot, d.files[slot].(cells := Overwrite(d.files[slot].cells, End(LastSeg(l)), buf)))
    ensures DiskInv(d', Extend(l, buf), boot, last)
    ensures PendingOk(d', Extend(l, buf), boot, [])
  {
    hide Holds, Overwrite, IsScan, FooterOf;
    var cells := Overwrite(d.files[slot].cells, End(LastSeg(l)), buf);
    assert DiskInv(d', Extend(l, buf), boot, last) by {
      WrittenRun(d, l, boot, last, buf, cells);
      OverwriteIsTorn(d.files[slot].cells, End(LastSeg(l)), buf);
      AppendedSlot(d, l, boot, last, buf, cells, buf);
    }
    assert PendingOk(d', Extend(l, buf), boot, []) by {
      WrittenRun(d, l, boot, last, buf, cells);
      NothingPending(d', Extend(l, buf), boot);
    }
  }

  lemma NothingPending(d: Disk, l: Log, boot: nat)
    requires Shape(l, |d.files|)
    requires var at := TopIdent(d.store, |d.files|, l);
      Increasing(LastSeg(l)) && End(LastSeg(l)) <= d.g.dataEnd &&
        TailBelow(d.files[at.slot].cells, at, LastSeg(l), MakeId(boot, 0))
    ensures PendingOk(d, l, boot, [])
  {
    assert LastSeg(l) + [] == LastSeg(l);
  }
}
