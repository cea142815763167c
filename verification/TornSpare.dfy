/** A torn second header that ordinary use leads to, and what it costs: a device that loses power twice, each time while
    the store opens a segment for an append, and can never be started again. */
module TornSpare {
  import opened Layout
  import opened Segment
  import opened Device
  import opened Protocol
  import opened Recovery
  import opened Runs
  import opened CrashSafety
  import opened Superblock
  import opened Memory
  import opened Restart
  import opened Engine
  import Anchors

  function Origin(t: Trace): P { if t.Start? then t.p else Origin(t.before) }

  function PowerLosses(t: Trace): nat
  {
    if t.Start? then 0
    else PowerLosses(t.before) + if t.step.PowerLoss? || t.step.PowerLossDuring? then 1 else 0
  }

  lemma {:induction false} PoweredOnly(since: Trace, t: Trace)
    requires Powered(since, t)
    ensures Origin(t) == Origin(since) && PowerLosses(t) == PowerLosses(since)
  {
    if t != since {
      if IsHeader(t.step, 1) {
        PoweredOnly(since, t.before.before);
      } else {
        PoweredOnly(since, t.before);
      }
    }
  }

  // ---------- Two slots in turn ----------

  /** Odd generations live in slot 0, even ones in slot 1. */
  predicate Alternates(p: P) { |p.d.files| == 2 && p.l.first == (p.l.base + 1) % 2 }

  lemma LogAlternates(p: P, l: Log)
    requires Alternates(p) && (l == p.l || l == Retire(p.l, 2) || l == Open(p.l) || exists es :: l == Extend(p.l, es))
    ensures l.first == (l.base + 1) % 2
  {
  }

  lemma StepAlternates(p: P, step: Step, p': P)
    requires Inv(p) && Next(p, step, p') && Alternates(p)
    ensures Alternates(p')
  {
    hide Inv, Recovers, Acceptable, Allowed, After, Outcome;
    match step
    case Io(op) => IoAlternates(p, op);
    case Accept(_) =>
    case PowerLoss => IdleCrashKeeps(p, p');
    case PowerLossDuring(op) =>
      CrashKeeps(p, op, p');
      CrashAlternates(p, op, p');
    case Damage(_, _) =>
    case PowerOn =>
  }

  lemma CrashAlternates(p: P, op: Op, p': P)
    requires Allowed(p, op) && Torn(p.d, op, p'.d) && Outcome(p, op, p'.l) && Alternates(p)
    ensures Alternates(p')
  {
    IoAlternates(p, op);
    assert |p'.d.files| == |p.d.files|;
    hide Allowed, After, Torn;
  }

  lemma IoAlternates(p: P, op: Op)
    requires Allowed(p, op) && Alternates(p)
    ensures Alternates(After(p, op))
  {
    LogAlternates(p, After(p, op).l);
  }

  lemma {:induction false} TraceAlternates(t: Trace)
    requires Legal(t) && Alternates(Origin(t))
    ensures Alternates(t.p)
  {
    hide Alternates, Inv, Next;
    if t.Then? {
      TraceAlternates(t.before);
      LegalInv(t.before);
      StepAlternates(t.before.p, t.step, t.p);
    }
  }

  /** The slot that the next generation goes to. */
  lemma NextInTurn(p: P)
    requires Alternates(p) && Shape(p.l, 2)
    ensures NextSlot(p.l, 2) == Top(p.l) % 2 && TopSlot(p.l, 2) == (Top(p.l) + 1) % 2
  {
  }

  // ---------- Where a store opened a segment ----------

  lemma TopOnlyByHeader(p: P, step: Step, p': P)
    requires Next(p, step, p') && p.l.segs != [] && !IsHeader(step, 0) && (step.PowerOn? || step.Accept? || step.Io?)
    ensures Top(p'.l) == Top(p.l) && p'.l.segs != []
  {
    hide SuperAllowed, Acceptable, FooterOf, Sample, IndexMatches, Overwrite;
    if step.Io? && step.op.WriteSuper? {
      RetiresOneOfTwo(p, step.op);
    }
  }

  lemma RetiresOneOfTwo(p: P, op: Op)
    requires Allowed(p, op) && op.WriteSuper?
    ensures op.s.oldestGen == p.l.base || |p.l.segs| >= 2
  {
  }

  lemma HeaderRaisesTop(p: P, op: Op)
    requires Allowed(p, op) && op.WriteHeader? && op.copy == 0
    ensures p.l.segs != [] && |p.l.segs| < |p.d.files| && p.buf == []
    ensures op.slot == NextSlot(p.l, |p.d.files|) && op.at == Ident(p.d.store, op.slot, Top(p.l) + 1)
    ensures After(p, op).l == Open(p.l) && Top(After(p, op).l) == Top(p.l) + 1
  {
  }

  /** If the newest generation has got as far as g while the power was on, then there was a moment at which the store
      was about to open generation g, and it wrote both headers then. */
  lemma {:induction false} OpeningOf(since: Trace, later: Trace, g: nat) returns (u: Trace, at: Ident)
    requires Legal(later) && Powered(since, later) && Top(since.p.l) < g <= Top(later.p.l)
    ensures Legal(u) && Powered(since, u) && Top(u.p.l) + 1 == g == at.gen
    ensures at.slot == NextSlot(u.p.l, |u.p.d.files|) && at.store == u.p.d.store
    ensures Allowed(u.p, WriteHeader(at.slot, 0, at))
    ensures Allowed(After(u.p, WriteHeader(at.slot, 0, at)), WriteHeader(at.slot, 1, at))
    ensures Within(Then(u, Step.Io(WriteHeader(at.slot, 0, at)), After(u.p, WriteHeader(at.slot, 0, at))), later)
  {
    hide Allowed, After, Inv;
    WithinChains();
    if IsHeader(later.step, 1) {
      var b := later.before.before;
      at := later.step.op.at;
      HeaderRaisesTop(b.p, later.before.step.op);
      SecondHeaderKeepsTop(later.before.p, later.step.op);
      if Top(b.p.l) < g {
        u := b;
      } else {
        u, at := OpeningOf(since, b, g);
      }
    } else {
      LegalInv(later.before);
      InvSegs(later.before.p);
      TopOnlyByHeader(later.before.p, later.step, later.p);
      u, at := OpeningOf(since, later.before, g);
    }
  }

  lemma SecondHeaderKeepsTop(p: P, op: Op)
    requires Allowed(p, op) && op.WriteHeader? && op.copy == 1
    ensures After(p, op).l == p.l
  {
  }

  lemma InvSegs(p: P)
    requires Inv(p)
    ensures p.l.segs != [] && Shape(p.l, |p.d.files|)
  {
  }

  // ---------- What stays as it was until then ----------

  lemma LoadsStay(p: P, step: Step, p': P)
    requires Next(p, step, p') && HeadersLoad(p.d) && (step.PowerOn? || step.Accept? || step.Io?)
    ensures HeadersLoad(p'.d)
  {
    hide SuperAllowed, Acceptable, FooterOf, Sample, IndexMatches, Overwrite, OverwriteIndex;
    forall i | 0 <= i < |p'.d.files| ensures LoadHeader(p'.d.files[i], p'.d.store, i).Some? {
      assert LoadHeader(p.d.files[i], p.d.store, i).Some?;
    }
  }

  lemma {:induction false} LoadsStayPowered(since: Trace, t: Trace)
    requires Legal(t) && Powered(since, t) && HeadersLoad(since.p.d)
    ensures HeadersLoad(t.p.d)
  {
    hide Next, HeadersLoad, Inv;
    if t != since {
      if IsHeader(t.step, 1) {
        LoadsStayPowered(since, t.before.before);
        LoadsStay(t.before.before.p, t.before.step, t.before.p);
      } else {
        LoadsStayPowered(since, t.before);
      }
      LoadsStay(t.before.p, t.step, t.p);
    }
  }

  lemma {:induction false} BootsRisePowered(since: Trace, t: Trace)
    requires Legal(t) && Within(since, t)
    ensures since.p.boot <= t.p.boot
  {
    hide Next, Inv;
    if t != since {
      BootsRisePowered(since, t.before);
      LegalInv(t.before);
      Anchors.BootNeverFalls(t.before.p, t.step, t.p);
    }
  }

  /** A spare that is torn while generation 2 is in slot 1 stays torn until that slot is due again. */
  lemma {:induction false} TornUntilDue(since: Trace, t: Trace)
    requires Legal(t) && Powered(since, t) && Alternates(Origin(since)) && SpareTorn(since.p.d, 1)
    requires 2 <= Top(since.p.l) && Top(t.p.l) <= 3
    ensures SpareTorn(t.p.d, 1)
  {
    hide Inv, SpareTorn, Allowed, Alternates;
    if t != since {
      var b := if IsHeader(t.step, 1) then t.before.before else t.before;
      PoweredOnly(since, b);
      TopsRise(since, b);
      LegalInv(t.before);
      InvSegs(t.before.p);
      if IsHeader(t.step, 1) {
        TraceAlternates(b);
        LegalInv(b);
        InvSegs(b.p);
        HeaderRaisesTop(b.p, t.before.step.op);
        SecondHeaderKeepsTop(t.before.p, t.step.op);
        TwoFiles(b.p);
        NextInTurn(b.p);
        TornUntilDue(since, b);
        StepKeepsSpare(b.p, t.before.step, t.before.p, 1);
      } else {
        TopOnlyByHeader(t.before.p, t.step, t.p);
        TornUntilDue(since, b);
      }
      StepKeepsSpare(t.before.p, t.step, t.p, 1);
    }
  }

  lemma TwoFiles(p: P)
    requires Alternates(p)
    ensures |p.d.files| == 2
  {
  }

  lemma {:induction false} TopsRise(since: Trace, t: Trace)
    requires Legal(t) && Powered(since, t)
    ensures Top(since.p.l) <= Top(t.p.l)
  {
    hide Inv, Allowed, Top;
    if t != since {
      LegalInv(t.before);
      InvSegs(t.before.p);
      if IsHeader(t.step, 1) {
        TopsRise(since, t.before.before);
        HeaderRaisesTop(t.before.before.p, t.before.step.op);
        SecondHeaderKeepsTop(t.before.p, t.step.op);
      } else {
        TopsRise(since, t.before);
        TopOnlyByHeader(t.before.p, t.step, t.p);
      }
    }
  }

  // ---------- The crash that tears the spare ----------

  lemma AllSlotsHold(d: Disk, l: Log, boot: nat, last: nat)
    requires DiskInv(d, l, boot, last) && |d.files| == 2 && |l.segs| == 2
    ensures HeadersLoad(d)
  {
    forall i | 0 <= i < 2 ensures LoadHeader(d.files[i], d.store, i).Some? {
      assert SlotOk(d.g, d.store, 2, i, d.files[i], l);
    }
  }

  /** The state after power loss tore the second header of slot 1. */
  function Torn1(p: P): P
    requires |p.d.files| == 2
  {
    p.(mode := Down, d := SetFile(p.d, 1, p.d.files[1].(h1 := None)))
  }

  lemma Tears(p: P, at: Ident)
    requires Inv(p) && |p.d.files| == 2 && |p.l.segs| == 2 && p.buf == [] && Allowed(p, WriteHeader(1, 1, at))
    ensures Next(p, PowerLossDuring(WriteHeader(1, 1, at)), Torn1(p)) && HeadersLoad(Torn1(p).d)
  {
    var d := Torn1(p).d;
    SecondHeaderTorn(p.d, p.l, p.boot, p.last, 1, None);
    AllSlotsHold(d, p.l, p.boot, p.last);
    InvRecovers(d, p.l, p.boot, p.last);
    assert Torn(p.d, WriteHeader(1, 1, at), d) by {
      assert TornCopy(p.d.files[1].h1, at, None) && d == SetFile(p.d, 1, SetHeader(p.d.files[1], 1, None));
    }
    assert LoadSuper(d).value.boot == p.boot;
    hide Inv, DiskInv, Recovers, Torn, LoadSuper;
    assert p.hist + Gained(p.l, p.l) == p.hist;
  }

  lemma OpenedNotSealed(p: P, op: Op)
    requires Inv(p) && Allowed(p, op) && op.WriteHeader? && op.copy == 0
    ensures !TopSealed(After(p, op))
  {
    var n := |p.d.files|;
    RankSlot(p.l, |p.l.segs|, n);
    assert SlotOk(p.d.g, p.d.store, n, op.slot, p.d.files[op.slot], p.l);
    hide Inv, SlotsOk;
  }

  /** Power fails while generation 2 is being opened in slot 1, after its first header. */
  lemma Tear(u: Trace, at: Ident) returns (past: Trace)
    requires Legal(u) && Alternates(Origin(u)) && Top(u.p.l) == 1 && at.slot == NextSlot(u.p.l, |u.p.d.files|)
    requires Allowed(u.p, WriteHeader(at.slot, 0, at))
    requires Allowed(After(u.p, WriteHeader(at.slot, 0, at)), WriteHeader(at.slot, 1, at))
    ensures Legal(past) && Origin(past) == Origin(u) && PowerLosses(past) == PowerLosses(u) + 1
    ensures past.Then? && past.step.PowerLossDuring?
    ensures past.before == Then(u, Step.Io(WriteHeader(1, 0, at)), After(u.p, WriteHeader(1, 0, at))) && at.slot == 1
    ensures past.p.mode == Down && past.p.boot == past.before.p.boot && SameLayout(u.p.d, past.p.d)
    ensures Top(past.p.l) == 2 && LastSeg(past.p.l) == [] && !TopSealed(past.p)
    ensures HeadersLoad(past.p.d) && SpareTorn(past.p.d, 1)
  {
    hide Allowed, Inv, Alternates, TopSealed, HeadersLoad;
    TraceAlternates(u);
    LegalInv(u);
    InvSegs(u.p);
    TwoFiles(u.p);
    NextInTurn(u.p);
    var op := WriteHeader(1, 0, at);
    HeaderRaisesTop(u.p, op);
    var v := Then(u, Step.Io(op), After(u.p, op));
    LegalInv(v);
    OpenedNotSealed(u.p, op);
    OneSegment(u.p);
    TornKeepsSeal(v.p);
    Tears(v.p, at);
    past := Then(v, PowerLossDuring(WriteHeader(1, 1, at)), Torn1(v.p));
  }

  lemma OneSegment(p: P)
    requires Shape(p.l, 2) && Top(p.l) == 1
    ensures |p.l.segs| == 1
  {
  }

  lemma TornKeepsSeal(p: P)
    requires |p.d.files| == 2
    ensures TopSealed(Torn1(p)) <==> TopSealed(p)
    ensures SpareTorn(Torn1(p).d, 1)
  {
  }

  // ---------- The store's part ----------

  /** The payload of an entry that fills a segment all but four bytes. */
  function BigPayload(g: Geometry): seq<byte>
    requires GeometryOk(g)
  {
    seq(g.dataEnd - DATA_START - MIN_ENTRY - 4, _ => 0)
  }

  /** It fits an empty segment and no other. */
  lemma BigRotates(p: P)
    requires GeometryOk(p.d.g)
    ensures var size := EntrySize(|BigPayload(p.d.g)|);
      && 0 < size && DATA_START + size <= p.d.g.dataEnd
      && (LastSeg(Contents(p)) != [] ==> Rotates(Contents(p), p.d.g, size) && Turns(p, size) == 1)
  {
    hide Contents;
  }

  /** A store brought up on this disk, with its boot event. */
  method Boot(disk: Disk, bufferSize: nat, ghost past: Trace, reset: seq<byte>, now: U64) returns (store: Store)
    requires Legal(past) && past.p.mode == Down && past.p.d == disk && |reset| == 8
    requires HeadersLoad(disk) && past.p.boot < BOOT_MASK && !TopSealed(past.p) && LastSeg(past.p.l) == []
    ensures fresh(store) && store.Valid() && store.past == past && Within(past, store.run)
    ensures OnTime(store.p, now) && store.state.sequence == 1 && store.p.boot == past.p.boot + 1
    ensures SameLayout(disk, store.p.d) && GeometryOk(disk.g)
    ensures Top(store.p.l) == Top(past.p.l) && LastSeg(Contents(store.p)) != []
  {
    hide store.Valid, Legal, Inv, HeadersLoad, TopSealed, OnTime, Top, Contents, Remains;
    store := new Store(disk, bufferSize, past);
    var status := store.Init(reset, now);
    ghost var e :| BootEvent(past.p, store.p, e);
    BootedTop(past, store.p, e);
  }

  lemma BootedTop(past: Trace, q: P, e: Entry)
    requires Legal(past) && past.p.mode == Down && BootEvent(past.p, q, e)
    requires !TopSealed(past.p) && LastSeg(past.p.l) == []
    ensures Top(q.l) == Top(past.p.l) && LastSeg(Contents(q)) != [] && GeometryOk(past.p.d.g)
  {
    var p := past.p;
    DownFacts(past, p);
    LegalInv(past);
    GeometryKnown(p);
    hide Inv, Legal, TopSealed;
    EmptyEnd();
    assert BootLog(p) == p.l;
    ContentsFacts(q);
    ExtendFacts(p.l, [e]);
    assert LastSeg(Extend(p.l, [e])) == LastSeg(p.l) + [e];
  }

  lemma GeometryKnown(p: P)
    requires Inv(p)
    ensures GeometryOk(p.d.g)
  {
  }

  /** An append that fills a new segment. */
  method AppendBig(store: Store, now: U64)
    requires store.Valid() && OnTime(store.p, now) && GeometryOk(store.p.d.g) && LastSeg(Contents(store.p)) != []
    requires store.state.sequence < SEQUENCE_MASK
    modifies store
    ensures store.Valid() && Within(old(store.run), store.run) && OnTime(store.p, now) &&
            SameLayout(old(store.p).d, store.p.d)
    ensures Top(store.p.l) == Top(old(store.p).l) + 1 && LastSeg(Contents(store.p)) != []
    ensures store.state.sequence == old(store.state.sequence) + 1 && store.p.boot == old(store.p).boot
  {
    hide store.Valid, OnTime, Top, Remains, Rotates;
    ghost var before := store.p;
    SameDisk(store);
    BigRotates(before);
    var status, e := store.AppendEntry(0, BigPayload(store.disk.g), now, true);
    TurnedFacts(Contents(before), |before.d.files|);
    LastOfAppend(before, store.p, e.value);
  }

  lemma SameDisk(store: Store)
    requires store.Valid()
    ensures store.disk == store.p.d && Contents(store.p).segs != [] && 2 <= |store.p.d.files|
    ensures Legal(store.run) && Powered(store.past, store.run) && store.run.p == store.p
  {
    hide Legal, Powered, Inv, Contents;
    MirrorSlots(store.p, store.Memory(), false);
    ContentsFacts(store.p);
  }

  lemma LastOfAppend(p: P, q: P, e: Entry)
    requires Contents(q) == Extend(Prepared(p, Size(e)), [e]) && Prepared(p, Size(e)).segs != []
    ensures LastSeg(Contents(q)) != []
  {
    var l := Prepared(p, Size(e));
    hide Contents, Prepared;
    assert LastSeg(Extend(l, [e])) == LastSeg(l) + [e];
  }

  // ---------- The two power losses ----------

  lemma Provision(d: Disk)
    requires Provisioned(d) && |d.files| == 2
    ensures Legal(Start(FirstState(d))) && HeadersLoad(d) && Alternates(FirstState(d)) && !TopSealed(FirstState(d))
    ensures Top(FirstState(d).l) == 1 && LastSeg(FirstState(d).l) == []
  {
    ProvisionedIsSafe(d);
    assert d.files[0] == d.files[0] && Foreign(d.files[0], d.store);
    hide Inv, HeadersLoad;
  }

  /** What the first power loss leaves of the provisioned disk d: the spare header of slot 1
      is torn, and nothing else. */
  ghost predicate CrashedOnce(past: Trace, d: Disk)
  {
    && Legal(past) && Origin(past) == FirstState(d) && PowerLosses(past) == 1
    && past.p.mode == Down && past.p.boot <= 1
    && Top(past.p.l) == 2 && LastSeg(past.p.l) == [] && !TopSealed(past.p)
    && HeadersLoad(past.p.d) && SpareTorn(past.p.d, 1)
  }

  /** A new device is started and an append opens generation 2 in slot 1. The run passes between the two header writes
      of that slot, and power lost there, during the second one, can leave a disk that recovery accepts. */
  method FirstPowerLoss(d: Disk, bufferSize: nat, reset: seq<byte>, now: U64) returns (store: Store, ghost past: Trace)
    requires Provisioned(d) && |d.files| == 2 && |reset| == 8
    ensures store.Valid() && CrashedOnce(past, d)
    ensures past.Then? && past.step.PowerLossDuring? && Within(past.before, store.run)
  {
    hide store.Valid, Legal, Inv, Allowed, After, HeadersLoad, Alternates, OnTime, Contents, Powered, Top, TopSealed,
         SpareTorn;
    ghost var start := Start(FirstState(d));
    Provision(d);
    store := Boot(d, bufferSize, start, reset, now);
    AppendBig(store, now);
    SameDisk(store);
    ghost var u, at := OpeningOf(start, store.run, 2);
    PoweredOnly(start, u);
    past := Tear(u, at);
    BootsRisePowered(past.before, store.run);
  }

  /** Losing power a second time at the same point can end the store. It is started on what the first power loss left,
      with every entry in place, and appends two entries. On the way to the second one its run passes through a state in
      which every slot has an intact header and the next write, which it goes on to make, is the first header of slot 1;
      one of the outcomes of losing power in that write is a disk that no recovery accepts. */
  method SecondPowerLossCanEndTheStore(d: Disk, disk: Disk, ghost past: Trace, bufferSize: nat, reset: seq<byte>,
                                       now: U64)
    returns (store: Store, ghost u: Trace, ghost at: Ident, ghost torn: Disk)
    requires Provisioned(d) && |d.files| == 2 && |reset| == 8 && CrashedOnce(past, d) && disk == past.p.d
    ensures store.Valid() && Legal(u) && Origin(u) == FirstState(d) && PowerLosses(u) == 1
    ensures HeadersLoad(u.p.d) && SpareTorn(u.p.d, 1) && Allowed(u.p, WriteHeader(1, 0, at))
    ensures Within(Then(u, Step.Io(WriteHeader(1, 0, at)), After(u.p, WriteHeader(1, 0, at))), store.run)
    ensures Torn(u.p.d, WriteHeader(1, 0, at), torn) && !HeadersLoad(torn) && !exists l :: Recovers(torn, l)
  {
    hide store.Valid, Legal, Inv, Allowed, After, HeadersLoad, Alternates, OnTime, Contents, Powered, Top, TopSealed,
         SpareTorn;
    Provision(d);
    store := Boot(disk, bufferSize, past, reset, now);
    AppendBig(store, now);
    AppendBig(store, now);
    SameDisk(store);
    u, at := OpeningOf(past, store.run, 4);
    Due(past, u);
    torn := Strike(u.p, at);
  }

  lemma Due(past: Trace, u: Trace)
    requires Legal(u) && Powered(past, u) && Alternates(Origin(past)) && PowerLosses(past) == 1
    requires HeadersLoad(past.p.d) && SpareTorn(past.p.d, 1) && Top(past.p.l) == 2 && Top(u.p.l) == 3
    ensures HeadersLoad(u.p.d) && SpareTorn(u.p.d, 1) && |u.p.d.files| == 2 && NextSlot(u.p.l, 2) == 1
    ensures Origin(u) == Origin(past) && PowerLosses(u) == 1
  {
    hide Inv, Next, HeadersLoad, SpareTorn, Alternates;
    PoweredOnly(past, u);
    TraceAlternates(u);
    LegalInv(u);
    InvSegs(u.p);
    TwoFiles(u.p);
    NextInTurn(u.p);
    LoadsStayPowered(past, u);
    TornUntilDue(past, u);
  }

  lemma Strike(p: P, at: Ident) returns (torn: Disk)
    requires |p.d.files| == 2 && SpareTorn(p.d, 1)
    ensures Torn(p.d, WriteHeader(1, 0, at), torn) && !HeadersLoad(torn) && !exists l :: Recovers(torn, l)
  {
    torn := SetFile(p.d, 1, p.d.files[1].(h0 := None));
    assert TornCopy(p.d.files[1].h0, at, None) && torn == SetFile(p.d, 1, SetHeader(p.d.files[1], 0, None));
    assert LoadHeader(torn.files[1], torn.store, 1) == None;
  }

  // ---------- Such a disk exists ----------

  /** A freshly provisioned store of two segments of 32 KiB. */
  function SmallStore(): Disk
  {
    var s := Super(2, 0, 1, 2, 1, 0, 0, 0, 0);
    var empty := (i: nat, gen: nat) => SlotFile(Some(Ident(7, i, gen)), Some(Ident(7, i, gen)), map[], [], None, None);
    Disk(7, Geometry(32768, 20480, 20480, 6), Some(s), Some(s.(sgen := 3)), [empty(0, 1), empty(1, 0)])
  }

  lemma SmallStoreIsProvisioned()
    ensures Provisioned(SmallStore()) && |SmallStore().files| == 2
    ensures CalculateGeometry(32768) == Some(SmallStore().g)
  {
  }
}
