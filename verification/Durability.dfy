/** What a caller may rely on across power loss: whatever was durable when power failed, at any moment of any operation,
    can be read again once the store has started up, except for at most one generation, the oldest. */
module Durability {
  import opened Layout
  import opened Device
  import opened Protocol
  import opened Recovery
  import opened Runs
  import opened CrashSafety
  import opened Memory
  import opened Restart
  import opened Lookup
  import opened Engine

  predicate IsCrash(step: Step) { step.PowerLoss? || step.PowerLossDuring? }

  /** Power fails while the superblock that drops the oldest generation is written. */
  predicate DropsOldest(p: P, step: Step)
  {
    step.PowerLossDuring? && step.op.WriteSuper? && step.op.s.oldestGen != p.l.base
  }

  /** The durable entries of p, generation by generation from q's oldest one on, are readable in q. */
  ghost predicate Survives(p: P, q: P)
  {
    && p.l.base <= q.l.base <= p.l.base + 1
    && forall k, x {:trigger x in p.l.segs[k]} :: q.l.base - p.l.base <= k < |p.l.segs| && x in p.l.segs[k] ==>
       x in Visible(q)
  }

  // ---------- The log, from before the crash to after the boot event ----------

  lemma CrashLog(p: P, step: Step, q: P)
    requires Inv(p) && Next(p, step, q) && IsCrash(step)
    ensures Inv(q) && GenLink(p.l, q.l) && q.d.g == p.d.g && |q.d.files| == |p.d.files|
    ensures q.l.base == p.l.base || (q.l.base == p.l.base + 1 && DropsOldest(p, step) && |q.l.segs| < |q.d.files|)
    ensures |q.l.segs| == |q.d.files| && q.l.base == p.l.base ==>
              |p.l.segs| == |p.d.files| || (LastSeg(q.l) == [] && !TopSealed(q))
  {
    StepKeeps(p, step, q);
    StepLinksGenerations(p, step, q);
    match step
    case PowerLoss => IdleCrashKeeps(p, q);
    case PowerLossDuring(op) =>
      CrashKeeps(p, op, q);
      hide Inv, Next, GenLink;
      OutcomeShape(p, op, q);
  }

  lemma OutcomeShape(p: P, op: Op, q: P)
    requires Inv(p) && Next(p, PowerLossDuring(op), q) && Outcome(p, op, q.l)
    ensures q.d.g == p.d.g && |q.d.files| == |p.d.files|
    ensures q.l.base == p.l.base ||
            (q.l.base == p.l.base + 1 && DropsOldest(p, PowerLossDuring(op)) && |q.l.segs| < |q.d.files|)
    ensures |q.l.segs| == |q.d.files| && q.l.base == p.l.base ==>
              |p.l.segs| == |p.d.files| || (LastSeg(q.l) == [] && !TopSealed(q))
  {
    hide StorageOk, HistoryOk, SuperAllowed, Recovers, TornCells, IndexMatches, TopSealed;
    if op.WriteHeader? && q.l != p.l {
      OpenedUnsealed(p, op, q);
    }
  }

  lemma OpenedUnsealed(p: P, op: Op, q: P)
    requires Inv(p) && Next(p, PowerLossDuring(op), q) && op.WriteHeader? && op.copy == 0 && q.l == Open(p.l)
    ensures !TopSealed(q)
  {
    var n := |p.d.files|;
    RankSlot(p.l, |p.l.segs|, n);
    assert SlotOk(p.d.g, p.d.store, n, op.slot, p.d.files[op.slot], p.l);
  }

  lemma TurnedLinks(l: Log, slots: nat)
    requires 1 <= |l.segs| <= slots && 2 <= slots
    ensures GenLink(l, Turned(l, slots))
    ensures Turned(l, slots).base == l.base + if |l.segs| == slots then 1 else 0
  {
    hide GenLink;
    OpenLinks(Evict(l, slots));
    if |l.segs| == slots {
      RetireLinks(l, slots);
      GenLinkTransitive(l, Retire(l, slots), Turned(l, slots));
    }
  }

  /** Starting up turns over at most one generation, and none of a store with a free slot or an empty newest segment. */
  lemma BootLogLinks(q: P, e: Entry)
    requires 1 <= |q.l.segs| <= |q.d.files| && 2 <= |q.d.files| && q.d.g.dataEnd - DATA_START >= SLOT_SIZE
    ensures GenLink(q.l, Extend(BootLog(q), [e]))
    ensures Extend(BootLog(q), [e]).base == q.l.base ||
            (Extend(BootLog(q), [e]).base == q.l.base + 1 && |q.l.segs| == |q.d.files| &&
             (TopSealed(q) || LastSeg(q.l) != []))
  {
    hide GenLink, TopSealed, Turned;
    EmptyEnd();
    OpenLinks(q.l);
    TurnedLinks(q.l, |q.d.files|);
    TurnedFacts(q.l, |q.d.files|);
    ExtendLinks(BootLog(q), [e]);
    GenLinkTransitive(q.l, BootLog(q), Extend(BootLog(q), [e]));
  }

  lemma LinkedSurvives(p: P, q: P)
    requires GenLink(p.l, Contents(q)) && Contents(q).base <= p.l.base + 1 && q.l.segs != []
    ensures Survives(p, q)
  {
    ContentsFacts(q);
    var l := Contents(q);
    hide Contents, Flat, Visible;
    forall k, x | q.l.base - p.l.base <= k < |p.l.segs| && x in p.l.segs[k] ensures x in Visible(q) {
      assert Holding(p.l, p.l.base + k) && Holding(l, p.l.base + k);
      assert RunOfGen(p.l, p.l.base + k) <= RunOfGen(l, p.l.base + k);
      assert x in l.segs[p.l.base + k - l.base];
      assert InSomeRun(l.segs, x);
      FlatMember(l.segs, x);
    }
  }

  /** Whatever was durable when power failed, idle or in the middle of any write, is readable after the next start,
      except that one generation may be gone, the oldest of a full store or the one just being dropped. */
  lemma CrashThenBoot(p: P, step: Step, q: P, r: P, e: Entry)
    requires Inv(p) && Next(p, step, q) && IsCrash(step) && BootEvent(q, r, e)
    ensures Survives(p, r)
    ensures r.l.base == p.l.base || |p.l.segs| == |p.d.files| || DropsOldest(p, step)
  {
    CrashLog(p, step, q);
    InvFacts(q);
    hide Inv, Next, GenLink, BootLog, Contents, Remains, Survives, TopSealed, DropsOldest;
    BootLogLinks(q, e);
    ContentsFacts(r);
    GenLinkTransitive(p.l, q.l, Contents(r));
    LinkedSurvives(p, r);
  }

  lemma InvFacts(q: P)
    requires Inv(q)
    ensures 1 <= |q.l.segs| <= |q.d.files| && 2 <= |q.d.files| && q.d.g.dataEnd - DATA_START >= SLOT_SIZE
  {
  }

  // ---------- A store before and after ----------

  /** Power fails at any point of a store's run, between two writes or during one, and a new store
      is started on what is left on the disk. */
  method PowerCycle(ghost before: Trace, ghost step: Step, ghost q: P, disk: Disk, bufferSize: nat,
                    resetReason: seq<byte>, now: U64)
    returns (store: Store, status: Status)
    requires Legal(before) && Next(before.p, step, q) && IsCrash(step) && disk == q.d && |resetReason| == 8
    ensures fresh(store) && Within(before, store.run)
    ensures status == Ok <==> q.boot < BOOT_MASK
    ensures status == Ok ==> store.Valid() && Survives(before.p, store.p)
    ensures status == Ok && store.p.l.base != before.p.l.base ==>
              |before.p.l.segs| == |before.p.d.files| || DropsOldest(before.p, step)
  {
    hide store.Valid, Legal, Inv, Survives, BootEvent;
    ghost var past := Then(before, step, q);
    CrashTrace(before, step, q);
    WithinChains();
    store := new Store(disk, bufferSize, past);
    status := store.Init(resetReason, now);
    if status == Ok {
      ghost var e :| BootEvent(q, store.p, e);
      CrashThenBoot(before.p, step, q, store.p, e);
    }
  }

  lemma CrashTrace(before: Trace, step: Step, q: P)
    requires Legal(before) && Next(before.p, step, q) && IsCrash(step)
    ensures Inv(before.p) && Legal(Then(before, step, q)) && q.mode == Down && HeadersLoad(q.d)
    ensures Within(before, Then(before, step, q))
  {
    hide Inv;
    LegalInv(before);
  }
}
