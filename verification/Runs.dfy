/** Whole runs of the store: durable writes, accepted entries, power loss at any point, recovery, and damage
    to index areas while the power is off. */
module Runs {
  import opened Layout
  import opened Segment
  import opened Device
  import opened Protocol
  import opened Recovery

  datatype Mode = Down | Recovering | Live

  /** d: the disk. l: the log it holds. buf: entries accepted but not yet written. boot: boot counter of the newest
      superblock. Two history variables: last, the largest entry ID ever issued, and hist, every entry that ever became
      durable, oldest first. */
  datatype P = P(mode: Mode, d: Disk, l: Log, buf: seq<Entry>, boot: nat, last: nat, hist: seq<Entry>)

  datatype Step =
    | Io(op: Op)
    | Accept(e: Entry)
    | PowerLoss
    | PowerLossDuring(op: Op)
    | Damage(slot: nat, index: seq<IndexItem>)
    | PowerOn

  // ---------- Invariant ----------

  /** Everything a reader could be shown: retained entries and those still in the write buffer. */
  function Visible(p: P): seq<Entry> { Flat(p.l.segs) + p.buf }

  /** Uptimes never decrease within a boot. */
  ghost predicate Timely(es: seq<Entry>)
  {
    forall i, j :: 0 <= i < j < |es| && Boot(es[i].id) == Boot(es[j].id) ==> es[i].uptime <= es[j].uptime
  }

  ghost predicate SegReady(d: Disk, l: Log, k: nat)
    requires Shape(l, |d.files|) && k < |l.segs|
  {
    var i := SlotAt(l.first, k, |d.files|);
    var at := Ident(d.store, i, l.base + k);
    && (k < |l.segs| - 1 ==> HasFooter(d.files[i], at))
    && (HasFooter(d.files[i], at) ==> IndexMatches(d.files[i], FooterOf(at, l.segs[k])))
  }

  /** All but the newest segment are sealed, and every seal's index is intact. */
  ghost predicate Ready(d: Disk, l: Log)
    requires Shape(l, |d.files|)
  {
    forall k :: 0 <= k < |l.segs| ==> SegReady(d, l, k)
  }

  ghost predicate EndsWith(hist: seq<Entry>, es: seq<Entry>)
  {
    |es| <= |hist| && hist[|hist| - |es|..] == es
  }

  ghost predicate HistoryOk(l: Log, buf: seq<Entry>, last: nat, hist: seq<Entry>)
  {
    && EndsWith(hist, Flat(l.segs))
    && Increasing(hist + buf)
    && Timely(hist + buf)
    && (forall i :: 0 <= i < |hist + buf| ==> (hist + buf)[i].id <= last && Sequenced((hist + buf)[i].id))
    && (forall i :: 0 <= i < |hist + buf| ==> (hist + buf)[i].uptime <= U64_MAX)
  }

  /** What going live, and staying live, needs besides the disk invariant. */
  ghost predicate LiveOk(d: Disk, l: Log, boot: nat, buf: seq<Entry>)
    requires Shape(l, |d.files|)
  {
    PendingOk(d, l, boot, buf) && Ready(d, l)
  }

  ghost predicate StorageOk(p: P)
  {
    && DiskInv(p.d, p.l, p.boot, p.last)
    && (if p.mode == Live then LiveOk(p.d, p.l, p.boot, p.buf) else p.buf == [])
    && forall i :: 0 <= i < |p.buf| ==> p.buf[i].id <= p.last
  }

  ghost predicate Inv(p: P)
  {
    StorageOk(p) && HistoryOk(p.l, p.buf, p.last, p.hist)
  }

  // ---------- Steps ----------

  /** The writes the store may issue in a given state. */
  ghost predicate Allowed(p: P, op: Op)
  {
    var n := |p.d.files|;
    && p.mode != Down
    && Shape(p.l, n)
    && OpInRange(op, n)
    && match op
       case WriteSuper(copy, s) =>
         && SuperAllowed(p.d, p.l, p.boot, copy, s)
         && (s.oldestGen != p.l.base ==> p.buf == [] && (p.mode == Live ==> LastSeg(p.l) != []))
         && (s.boot == p.boot || (p.mode == Recovering && s.boot == p.boot + 1 && Ready(p.d, p.l)))
       case WriteHeader(slot, copy, at) =>
         if copy == 0 then
           && |p.l.segs| < n && p.buf == []
           && slot == NextSlot(p.l, n) && at == Ident(p.d.store, slot, Top(p.l) + 1)
           && HasFooter(p.d.files[TopSlot(p.l, n)], TopIdent(p.d.store, n, p.l))
         else
           && at == TopIdent(p.d.store, n, p.l) && slot == at.slot
           && HeaderValid(p.d.files[slot].h0, p.d.store, slot) && p.d.files[slot].h0.value.gen == Top(p.l)
       case WriteData(slot, start, es) =>
         p.mode == Live && slot == TopSlot(p.l, n) && es == p.buf != [] && start == End(LastSeg(p.l))
       case WriteIndex(slot, items) =>
         var k := RankOf(p.l.first, slot, n);
         && k < |p.l.segs| && p.buf == [] && items == Sample(p.l.segs[k])
         && (p.mode == Live ==> !HasFooter(p.d.files[slot], Ident(p.d.store, slot, p.l.base + k)))
       case WriteFooter(slot, _, f) =>
         var k := RankOf(p.l.first, slot, n);
         && k < |p.l.segs| && p.buf == [] && f == FooterOf(Ident(p.d.store, slot, p.l.base + k), p.l.segs[k])
         && IndexMatches(p.d.files[slot], f)
  }

  /** The state once the write is synced. */
  function After(p: P, op: Op): P
    requires OpInRange(op, |p.d.files|)
  {
    var d := Apply(p.d, op);
    match op
    case WriteSuper(_, s) =>
      p.(d := d, l := LogAfterSuper(p.l, |p.d.files|, s), boot := s.boot,
         mode := if s.boot > p.boot then Live else p.mode)
    case WriteHeader(_, copy, _) => p.(d := d, l := if copy == 0 then Open(p.l) else p.l)
    case WriteData(_, _, es) => p.(d := d, l := Extend(p.l, p.buf), buf := [], hist := p.hist + p.buf)
    case WriteIndex(_, _) => p.(d := d)
    case WriteFooter(_, _, _) => p.(d := d)
  }

  /** The store may take in an entry that is newer than everything before it, fits the unsealed newest segment, and was
      stamped by a timer that does not run backwards. */
  ghost predicate Acceptable(p: P, e: Entry)
  {
    && p.mode == Live
    && Shape(p.l, |p.d.files|)
    && var at := TopIdent(p.d.store, |p.d.files|, p.l);
       && at.slot < |p.d.files|
       && Accepts(e, at)
       && !HasFooter(p.d.files[at.slot], at)
       && p.last < e.id && Boot(e.id) == p.boot && Sequenced(e.id) && e.uptime <= U64_MAX
       && End(LastSeg(p.l) + p.buf) + Size(e) <= p.d.g.dataEnd
       && (forall i :: 0 <= i < |p.hist + p.buf| && Boot((p.hist + p.buf)[i].id) == p.boot ==>
           (p.hist + p.buf)[i].uptime <= e.uptime)
  }

  /** Entries of the newest segment that recovery found beyond those known durable. */
  function Gained(l: Log, l': Log): seq<Entry>
  {
    if l'.base == l.base && |l'.segs| == |l.segs| && LastSeg(l) <= LastSeg(l') then LastSeg(l')[|LastSeg(l)|..] else []
  }

  /** After power loss everything is forgotten except the disk; the log is whatever recovery reads from it. */
  ghost predicate Restarts(p: P, d: Disk, p': P)
  {
    && p'.mode == Down
    && p'.d == d
    && Recovers(d, p'.l)
    && p'.buf == []
    && LoadSuper(d).Some? && p'.boot == LoadSuper(d).value.boot
    && p'.last == p.last
    && p'.hist == p.hist + Gained(p.l, p'.l)
  }

  ghost predicate Next(p: P, step: Step, p': P)
  {
    match step
    case Io(op) => Allowed(p, op) && p' == After(p, op)
    case Accept(e) => Acceptable(p, e) && p' == p.(buf := p.buf + [e], last := e.id)
    case PowerLoss => Restarts(p, p.d, p')
    case PowerLossDuring(op) => Allowed(p, op) && Torn(p.d, op, p'.d) && Restarts(p, p'.d, p')
    case Damage(slot, index) =>
      p.mode == Down && slot < |p.d.files| && p' == p.(d := SetFile(p.d, slot, p.d.files[slot].(index := index)))
    case PowerOn => p.mode == Down && p' == p.(mode := Recovering)
  }

  // ---------- Steps that need no read lock ----------

  /** Writes the writer can make without the read lock: everything except retirement and activation. */
  predicate Unlocked(q: P, op: Op)
  {
    match op
    case WriteSuper(_, s) => s.oldestGen == q.l.base && s.boot == q.boot
    case WriteHeader(_, _, _) => false
    case WriteData(_, _, _) => true
    case WriteIndex(slot, _) => slot == TopSlot(q.l, |q.d.files|)
    case WriteFooter(slot, _, _) => slot == TopSlot(q.l, |q.d.files|)
  }

  predicate UnlockedStep(q: P, step: Step)
  {
    match step
    case Io(op) => Unlocked(q, op)
    case Accept(_) => true
    case _ => false
  }

  // ---------- Runs ----------

  /** states[i + 1] follows states[i] by steps[i]. */
  ghost predicate IsRun(states: seq<P>, steps: seq<Step>)
  {
    && |states| == |steps| + 1
    && forall i :: 0 <= i < |steps| ==> Next(states[i], steps[i], states[i + 1])
  }

  // ---------- History bookkeeping ----------

  lemma FlatExtend(l: Log, es: seq<Entry>)
    requires l.segs != []
    ensures Flat(Extend(l, es).segs) == Flat(l.segs) + es
  {
    var segs := Extend(l, es).segs;
    assert segs[..|segs| - 1] == l.segs[..|l.segs| - 1];
  }

  lemma FlatOpen(l: Log)
    ensures Flat(Open(l).segs) == Flat(l.segs)
  {
    assert Open(l).segs[..|l.segs|] == l.segs;
  }

  lemma {:induction false} FlatTail(segs: seq<seq<Entry>>)
    requires segs != []
    ensures Flat(segs) == segs[0] + Flat(segs[1..])
  {
    if |segs| == 1 {
      assert segs[..0] == [] && segs[1..] == [];
      assert Flat(segs) == segs[0];
    } else {
      var init := segs[..|segs| - 1];
      FlatTail(init);
      assert segs[1..][..|segs[1..]| - 1] == init[1..];
      assert Flat(segs) == segs[0] + Flat(init[1..]) + segs[|segs| - 1];
    }
  }

  lemma EndsWithMore(hist: seq<Entry>, es: seq<Entry>, more: seq<Entry>)
    requires EndsWith(hist, es)
    ensures EndsWith(hist + more, es + more)
  {
  }

  lemma EndsWithTail(hist: seq<Entry>, a: seq<Entry>, b: seq<Entry>)
    requires EndsWith(hist, a + b)
    ensures EndsWith(hist, b)
  {
    assert (a + b)[|a|..] == b;
  }

  /** Making a prefix of the pending entries durable, and forgetting the rest, keeps the history consistent. */
  lemma HistoryGains(l: Log, buf: seq<Entry>, last: nat, hist: seq<Entry>, k: nat)
    requires HistoryOk(l, buf, last, hist) && k <= |buf| && l.segs != []
    ensures HistoryOk(Extend(l, buf[..k]), [], last, hist + buf[..k])
  {
    FlatExtend(l, buf[..k]);
    EndsWithMore(hist, Flat(l.segs), buf[..k]);
    var h := hist + buf[..k];
    assert h + [] == h && h == (hist + buf)[..|h|];
    hide Increasing, Timely, Sequenced, EndsWith;
    HistoryPrefix(hist + buf, |h|);
  }

  lemma HistoryPrefix(all: seq<Entry>, n: nat)
    requires Increasing(all) && Timely(all) && n <= |all|
    ensures Increasing(all[..n]) && Timely(all[..n])
  {
  }

  lemma HistoryRetires(l: Log, slots: nat, last: nat, hist: seq<Entry>)
    requires HistoryOk(l, [], last, hist) && l.segs != []
    ensures HistoryOk(Retire(l, slots), [], last, hist)
  {
    FlatTail(l.segs);
    EndsWithTail(hist, l.segs[0], Flat(l.segs[1..]));
  }

  lemma HistoryOpens(l: Log, buf: seq<Entry>, last: nat, hist: seq<Entry>)
    requires HistoryOk(l, buf, last, hist)
    ensures HistoryOk(Open(l), buf, last, hist)
  {
    FlatOpen(l);
  }

  lemma HistoryForgets(l: Log, buf: seq<Entry>, last: nat, hist: seq<Entry>)
    requires HistoryOk(l, buf, last, hist) && l.segs != []
    ensures HistoryOk(l, [], last, hist)
  {
    HistoryGains(l, buf, last, hist, 0);
    assert hist + buf[..0] == hist;
    assert LastSeg(l) + buf[..0] == LastSeg(l);
    assert Extend(l, buf[..0]).segs == l.segs;
  }

  lemma HistoryAccepts(l: Log, buf: seq<Entry>, last: nat, hist: seq<Entry>, e: Entry, boot: nat)
    requires HistoryOk(l, buf, last, hist) && last < e.id && Boot(e.id) == boot && Sequenced(e.id) &&
             e.uptime <= U64_MAX
    requires forall i :: 0 <= i < |hist + buf| && Boot((hist + buf)[i].id) == boot ==>
             (hist + buf)[i].uptime <= e.uptime
    ensures HistoryOk(l, buf + [e], e.id, hist)
  {
    var h := hist + buf;
    assert hist + (buf + [e]) == h + [e];
  }

  // ---------- A write keeps the invariant ----------

  /** Going live: every record on disk was issued under an earlier boot counter, so it is
      too old to extend a new run. */
  lemma BootFloor(d: Disk, l: Log, boot: nat, last: nat)
    requires DiskInv(d, l, boot, last)
    ensures PendingOk(d, l, boot + 1, [])
  {
    TopHolds(d, l, boot, last);
    assert last < MakeId(boot + 1, 0);
    NothingPending(d, l, boot + 1);
  }

  lemma ReadyRetires(d: Disk, l: Log)
    requires Shape(l, |d.files|) && |l.segs| >= 2 && Ready(d, l)
    ensures Shape(Retire(l, |d.files|), |d.files|) && Ready(d, Retire(l, |d.files|))
  {
    var l' := Retire(l, |d.files|);
    forall k | 0 <= k < |l'.segs| ensures SegReady(d, l', k) {
      assert SegReady(d, l, k + 1);
    }
  }

  lemma PendingRetires(d: Disk, l: Log, boot: nat)
    requires Shape(l, |d.files|) && |l.segs| >= 2 && PendingOk(d, l, boot, [])
    ensures Shape(Retire(l, |d.files|), |d.files|) && PendingOk(d, Retire(l, |d.files|), boot, [])
  {
    assert LastSeg(Retire(l, |d.files|)) == LastSeg(l);
  }

  /** PendingOk and Ready do not look at the superblocks. */
  lemma SuperFrame(d: Disk, l: Log, boot: nat, buf: seq<Entry>, copy: nat, c: Option<Super>)
    requires Shape(l, |d.files|)
    ensures PendingOk(d, l, boot, buf) ==> PendingOk(SetSuper(d, copy, c), l, boot, buf)
    ensures Ready(d, l) ==> Ready(SetSuper(d, copy, c), l)
  {
    if Ready(d, l) {
      forall k | 0 <= k < |l.segs| ensures SegReady(SetSuper(d, copy, c), l, k) {
        assert SegReady(d, l, k);
      }
    }
  }

  lemma SuperKeepsLive(p: P, copy: nat, s: Super)
    requires StorageOk(p) && Allowed(p, WriteSuper(copy, s)) && After(p, WriteSuper(copy, s)).mode == Live
    ensures LiveOk(SetSuper(p.d, copy, Some(s)), p.l, s.boot, p.buf)
  {
    if s.boot > p.boot {
      BootFloor(p.d, p.l, p.boot, p.last);
    }
    SuperFrame(p.d, p.l, s.boot, p.buf, copy, Some(s));
  }

  lemma SuperKeeps(p: P, copy: nat, s: Super)
    requires StorageOk(p) && Allowed(p, WriteSuper(copy, s))
    ensures StorageOk(After(p, WriteSuper(copy, s)))
  {
    var q := After(p, WriteSuper(copy, s));
    assert DiskInv(q.d, q.l, q.boot, q.last) by { SuperTorn(p.d, p.l, p.boot, p.last, copy, s, Some(s)); }
    if q.mode == Live {
      SuperKeepsLive(p, copy, s);
      if s.oldestGen != p.l.base {
        ReadyRetires(q.d, p.l);
        PendingRetires(q.d, p.l, s.boot);
      }
    }
  }

  lemma ReadyOpens(d: Disk, l: Log, file: SlotFile)
    requires Shape(l, |d.files|) && |l.segs| < |d.files| && Ready(d, l)
    requires HasFooter(d.files[TopSlot(l, |d.files|)], TopIdent(d.store, |d.files|, l))
    requires !HasFooter(file, Ident(d.store, NextSlot(l, |d.files|), Top(l) + 1))
    ensures NextSlot(l, |d.files|) < |d.files| && Shape(Open(l), |d.files|)
    ensures Ready(SetFile(d, NextSlot(l, |d.files|), file), Open(l))
  {
    var n := |d.files|;
    var d' := SetFile(d, NextSlot(l, n), file);
    forall k | 0 <= k < |Open(l).segs| ensures SegReady(d', Open(l), k) {
      RankSlot(l, k, n);
      RankSlot(l, |l.segs|, n);
      if k < |l.segs| {
        assert SegReady(d, l, k);
      }
    }
  }

  lemma FirstHeaderKeeps(p: P, slot: nat, at: Ident)
    requires StorageOk(p) && Allowed(p, WriteHeader(slot, 0, at))
    ensures StorageOk(After(p, WriteHeader(slot, 0, at)))
  {
    hide PendingOk, Ordered, IdsWithin, TopIssued, SuperOk, IsScan, FooterOf, IndexMatches;
    var n := |p.d.files|;
    FirstHeaderArrives(p.d, p.l, p.boot, p.last, slot);
    RankSlot(p.l, |p.l.segs|, n);
    assert SlotOk(p.d.g, p.d.store, n, slot, p.d.files[slot], p.l);
    var file := p.d.files[slot].(h0 := Some(at));
    if p.mode == Live {
      ReadyOpens(p.d, p.l, file);
      OpenedPending(SetFile(p.d, slot, file), Open(p.l), p.boot);
    }
  }

  lemma OpenedPending(d: Disk, l: Log, boot: nat)
    requires GeometryOk(d.g) && Shape(l, |d.files|) && LastSeg(l) == []
    requires var at := TopIdent(d.store, |d.files|, l); Binds(d.files[at.slot].(h0 := None), d.store, at.slot, at.gen)
    ensures PendingOk(d, l, boot, [])
  {
    NothingPending(d, l, boot);
  }

  /** Changing headers, index or footers of a slot, not its records. */
  lemma RecordsFrame(d: Disk, l: Log, boot: nat, buf: seq<Entry>, slot: nat, file: SlotFile)
    requires Shape(l, |d.files|) && slot < |d.files| && file.cells == d.files[slot].cells
    requires PendingOk(d, l, boot, buf)
    requires buf == [] || !HasFooter(file, TopIdent(d.store, |d.files|, l)) || slot != TopSlot(l, |d.files|)
    ensures PendingOk(SetFile(d, slot, file), l, boot, buf)
  {
  }

  lemma ReadyFrame(d: Disk, l: Log, k: nat, slot: nat, file: SlotFile)
    requires Shape(l, |d.files|) && Ready(d, l) && k < |l.segs| && slot == SlotAt(l.first, k, |d.files|) &&
             slot < |d.files|
    requires SegReady(SetFile(d, slot, file), l, k)
    ensures Ready(SetFile(d, slot, file), l)
  {
    forall j | 0 <= j < |l.segs| ensures SegReady(SetFile(d, slot, file), l, j) {
      RankSlot(l, j, |d.files|);
      RankSlot(l, k, |d.files|);
      assert SegReady(d, l, j);
    }
  }

  lemma SecondHeaderKeeps(p: P, slot: nat, at: Ident)
    requires StorageOk(p) && Allowed(p, WriteHeader(slot, 1, at))
    ensures StorageOk(After(p, WriteHeader(slot, 1, at)))
  {
    hide DiskInv, FooterOf;
    SecondHeaderTorn(p.d, p.l, p.boot, p.last, slot, Some(at));
    if p.mode == Live {
      var file := p.d.files[slot].(h1 := Some(at));
      RecordsFrame(p.d, p.l, p.boot, p.buf, slot, file);
      assert SegReady(p.d, p.l, |p.l.segs| - 1);
      ReadyFrame(p.d, p.l, |p.l.segs| - 1, slot, file);
    }
  }

  lemma IndexKeeps(p: P, slot: nat, items: seq<IndexItem>)
    requires StorageOk(p) && Allowed(p, WriteIndex(slot, items))
    ensures StorageOk(After(p, WriteIndex(slot, items)))
  {
    hide DiskInv, PendingOk, OverwriteIndex, Sample, FooterOf, IndexMatches;
    var file := p.d.files[slot].(index := OverwriteIndex(p.d.files[slot].index, items));
    IndexTorn(p.d, p.l, p.boot, p.last, slot, file.index);
    if p.mode == Live {
      var k := RankOf(p.l.first, slot, |p.d.files|);
      SlotRank(p.l, slot, |p.d.files|);
      RecordsFrame(p.d, p.l, p.boot, p.buf, slot, file);
      assert SegReady(p.d, p.l, k);
      ReadyFrame(p.d, p.l, k, slot, file);
    }
  }

  lemma FooterKeepsLive(d: Disk, l: Log, boot: nat, buf: seq<Entry>, slot: nat, file: SlotFile, k: nat)
    requires Shape(l, |d.files|) && k < |l.segs| && slot == SlotAt(l.first, k, |d.files|) && slot < |d.files|
    requires LiveOk(d, l, boot, buf) && buf == [] && file.cells == d.files[slot].cells &&
             file.index == d.files[slot].index
    requires IndexMatches(d.files[slot], FooterOf(Ident(d.store, slot, l.base + k), l.segs[k]))
    requires HasFooter(file, Ident(d.store, slot, l.base + k))
    ensures LiveOk(SetFile(d, slot, file), l, boot, buf)
  {
    RecordsFrame(d, l, boot, buf, slot, file);
    assert SegReady(d, l, k);
    ReadyFrame(d, l, k, slot, file);
  }

  lemma FooterKeeps(p: P, slot: nat, copy: nat, f: Footer)
    requires StorageOk(p) && Allowed(p, WriteFooter(slot, copy, f))
    ensures StorageOk(After(p, WriteFooter(slot, copy, f)))
  {
    var file := SetFooter(p.d.files[slot], copy, Some(f));
    var k := RankOf(p.l.first, slot, |p.d.files|);
    SlotRank(p.l, slot, |p.d.files|);
    FooterTorn(p.d, p.l, p.boot, p.last, k, slot, copy, f, Some(f));
    if p.mode == Live {
      FooterKeepsLive(p.d, p.l, p.boot, p.buf, slot, file, k);
    }
    assert After(p, WriteFooter(slot, copy, f)) == p.(d := SetFile(p.d, slot, file));
  }

  lemma DataKeeps(p: P, slot: nat, start: nat, es: seq<Entry>)
    requires StorageOk(p) && Allowed(p, WriteData(slot, start, es))
    ensures StorageOk(After(p, WriteData(slot, start, es)))
  {
    var q := After(p, WriteData(slot, start, es));
    assert DiskInv(q.d, q.l, q.boot, q.last) && PendingOk(q.d, q.l, q.boot, []) by {
      DataWritten(p.d, p.l, p.boot, p.last, p.buf, slot, q.d);
    }
    assert Ready(q.d, q.l) by {
      ReadyExtends(p.d, p.l, p.buf, p.d.files[slot].(cells := Overwrite(p.d.files[slot].cells, start, es)));
    }
  }

  lemma ReadyExtends(d: Disk, l: Log, es: seq<Entry>, file: SlotFile)
    requires Shape(l, |d.files|) && Ready(d, l)
    requires !HasFooter(file, TopIdent(d.store, |d.files|, l))
    ensures TopSlot(l, |d.files|) < |d.files|
    ensures Ready(SetFile(d, TopSlot(l, |d.files|), file), Extend(l, es))
  {
    var d' := SetFile(d, TopSlot(l, |d.files|), file);
    var l' := Extend(l, es);
    forall k | 0 <= k < |l'.segs| ensures SegReady(d', l', k) {
      RankSlot(l, k, |d.files|);
      RankSlot(l, |l.segs| - 1, |d.files|);
      assert SegReady(d, l, k);
    }
  }

  lemma HistoryKeeps(p: P, op: Op)
    requires HistoryOk(p.l, p.buf, p.last, p.hist) && Allowed(p, op)
    ensures var q := After(p, op); HistoryOk(q.l, q.buf, q.last, q.hist)
  {
    match op
    case WriteSuper(copy, s) =>
      if s.oldestGen != p.l.base {
        HistoryRetires(p.l, |p.d.files|, p.last, p.hist);
      }
    case WriteHeader(slot, copy, at) => HistoryOpens(p.l, p.buf, p.last, p.hist);
    case WriteData(slot, start, es) =>
      HistoryGains(p.l, p.buf, p.last, p.hist, |p.buf|);
      assert p.buf[..|p.buf|] == p.buf;
    case WriteIndex(slot, items) =>
    case WriteFooter(slot, copy, f) =>
  }

  lemma IoKeepsStorage(p: P, op: Op)
    requires StorageOk(p) && Allowed(p, op)
    ensures StorageOk(After(p, op))
  {
    match op
    case WriteSuper(copy, s) => SuperKeeps(p, copy, s);
    case WriteHeader(slot, copy, at) =>
      if copy == 0 {
        FirstHeaderKeeps(p, slot, at);
      } else {
        SecondHeaderKeeps(p, slot, at);
      }
    case WriteData(slot, start, es) => DataKeeps(p, slot, start, es);
    case WriteIndex(slot, items) => IndexKeeps(p, slot, items);
    case WriteFooter(slot, copy, f) => FooterKeeps(p, slot, copy, f);
  }

  lemma IoKeeps(p: P, op: Op)
    requires Inv(p) && Allowed(p, op)
    ensures Inv(After(p, op))
  {
    IoKeepsStorage(p, op);
    HistoryKeeps(p, op);
  }

  lemma AcceptedRun(at: Ident, limit: nat, es: seq<Entry>, buf: seq<Entry>, floor: nat, last: nat, e: Entry)
    requires NewRun(at, limit, es + buf, |es|, floor) && Accepts(e, at) && floor <= e.id && last < e.id
    requires forall i :: 0 <= i < |es| ==> es[i].id <= last
    requires forall i :: 0 <= i < |buf| ==> buf[i].id <= last
    requires End(es + buf) + Size(e) <= limit
    ensures NewRun(at, limit, es + (buf + [e]), |es|, floor)
  {
    var all := es + buf;
    assert es + (buf + [e]) == all + [e];
    OffStep(all + [e], |all|);
    OffPrefix(all, [e], |all|);
  }

  lemma AcceptedPending(d: Disk, l: Log, boot: nat, last: nat, buf: seq<Entry>, e: Entry)
    requires Shape(l, |d.files|) && PendingOk(d, l, boot, buf) && IdsWithin(l.segs, last)
    requires Accepts(e, TopIdent(d.store, |d.files|, l)) && MakeId(boot, 0) <= e.id && last < e.id
    requires forall i :: 0 <= i < |buf| ==> buf[i].id <= last
    requires !HasFooter(d.files[TopSlot(l, |d.files|)], TopIdent(d.store, |d.files|, l))
    requires End(LastSeg(l) + buf) + Size(e) <= d.g.dataEnd
    ensures PendingOk(d, l, boot, buf + [e])
  {
    var t := |l.segs| - 1;
    assert forall i :: 0 <= i < |l.segs[t]| ==> l.segs[t][i].id <= last;
    AcceptedRun(TopIdent(d.store, |d.files|, l), d.g.dataEnd, LastSeg(l), buf, MakeId(boot, 0), last, e);
  }

  lemma AcceptKeeps(p: P, e: Entry)
    requires Inv(p) && Acceptable(p, e)
    ensures Inv(p.(buf := p.buf + [e], last := e.id))
  {
    HistoryAccepts(p.l, p.buf, p.last, p.hist, e, p.boot);
    AcceptedPending(p.d, p.l, p.boot, p.last, p.buf, e);
    LaterIssued(p.d, p.l, p.boot, p.last, e.id);
  }

  lemma LaterIssued(d: Disk, l: Log, boot: nat, last: nat, later: nat)
    requires DiskInv(d, l, boot, last) && last <= later && Boot(later) <= boot
    ensures DiskInv(d, l, boot, later)
  {
  }
}
