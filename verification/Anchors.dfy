/** The anchor ring: which slot a new time anchor may take, and why no anchor that a
    retained entry still needs is ever lost. */
module Anchors {
  import opened Layout
  import opened Segment
  import opened Device
  import opened Protocol
  import opened Recovery
  import opened Runs
  import opened Memory
  import opened CrashSafety
  import opened Lookup
  import opened Snapshots
  import opened ReadFacts
  import opened Searches
  import opened TimeModel
  import opened Catalog
  import opened Engine

  /** Some entry of this boot can still be read. */
  ghost predicate BootRetained(p: P, boot: nat) { exists x :: x in Visible(p) && Boot(x.id) == boot }

  // ---------- How the set of retained boots develops ----------

  /** Apart from the boot that is running, boots only ever leave the log. */
  lemma BootsOnlyLeave(p: P, step: Step, p': P, boot: nat)
    requires Inv(p) && Next(p, step, p') && BootRetained(p', boot)
    ensures BootRetained(p, boot) || (p.mode == Live && boot == p.boot)
  {
    StepShowsNothingOld(p, step, p');
    var x :| x in Visible(p') && Boot(x.id) == boot;
    if x !in Visible(p) {
      assert step == Accept(x) && Acceptable(p, x);
    }
  }

  lemma BootNeverFalls(p: P, step: Step, p': P)
    requires Inv(p) && Next(p, step, p')
    ensures p.boot <= p'.boot
    ensures p.mode == Live && p'.mode == Live ==> p'.boot == p.boot
    ensures p.mode != Live && p'.mode == Live ==> p'.boot > p.boot
  {
    if step.PowerLossDuring? {
      var l', boot := CrashOutcome(p, step.op, p'.d);
    }
  }

  lemma VisibleIssued(p: P, x: Entry)
    requires Inv(p) && x in Visible(p)
    ensures Boot(x.id) <= p.boot
  {
    HistoryMember(p, x);
    var h := p.hist + p.buf;
    var j :| 0 <= j < |h| && h[j] == x;
    assert x.id <= p.last && Boot(p.last) <= p.boot;
    BootMonotone(x.id, p.last);
  }

  lemma LastIsGreatest(es: seq<Entry>, x: Entry)
    requires Increasing(es) && x in es
    ensures x.id <= es[|es| - 1].id
  {
    var i :| 0 <= i < |es| && es[i] == x;
  }

  lemma NewestIsCurrent(p: P)
    requires Inv(p) && BootRetained(p, p.boot) && LastSeg(p.l) != [] && p.buf == []
    ensures Boot(LastSeg(p.l)[|LastSeg(p.l)| - 1].id) == p.boot
  {
    var newest := LastSeg(p.l)[|LastSeg(p.l)| - 1];
    var x :| x in Visible(p) && Boot(x.id) == p.boot;
    hide Inv, Visible, BootRetained;
    VisibleIncreasing(p);
    NewestVisible(p);
    VisibleIssued(p, newest);
    LastIsGreatest(Visible(p), x);
    BootMonotone(x.id, newest.id);
  }

  lemma NewestVisible(p: P)
    requires LastSeg(p.l) != [] && p.buf == []
    ensures Visible(p) != [] && Visible(p)[|Visible(p)| - 1] == LastSeg(p.l)[|LastSeg(p.l)| - 1]
    ensures LastSeg(p.l)[|LastSeg(p.l)| - 1] in Visible(p)
  {
    assert Visible(p) == Flat(p.l.segs[..|p.l.segs| - 1]) + LastSeg(p.l);
    assert Visible(p)[|Visible(p)| - 1] == LastSeg(p.l)[|LastSeg(p.l)| - 1];
  }

  /** While the store runs, the current boot keeps an entry once it has one: a retirement
      leaves the newest segment alone. */
  lemma CurrentBootStays(p: P, step: Step, p': P)
    requires Inv(p) && Next(p, step, p') && p.mode == Live && p'.mode == Live && BootRetained(p, p.boot)
    ensures p'.boot == p.boot && BootRetained(p', p'.boot)
  {
    BootNeverFalls(p, step, p');
    if step.Io? && step.op.WriteSuper? && step.op.s.oldestGen != p.l.base {
      NewestIsCurrent(p);
      RetireKeepsNewest(p);
    } else {
      var x :| x in Visible(p) && Boot(x.id) == p.boot;
      NoRetirementNoLoss(p, step, p');
    }
  }

  lemma RetireKeepsNewest(p: P)
    requires Shape(p.l, |p.d.files|) && |p.l.segs| >= 2 && LastSeg(p.l) != []
    ensures LastSeg(p.l)[|LastSeg(p.l)| - 1] in Flat(Retire(p.l, |p.d.files|).segs)
  {
    var segs := Retire(p.l, |p.d.files|).segs;
    assert segs[|segs| - 1] == LastSeg(p.l);
    assert Flat(segs) == Flat(segs[..|segs| - 1]) + LastSeg(p.l);
  }

  lemma NoRetirementNoLoss(p: P, step: Step, p': P)
    requires Inv(p) && Next(p, step, p') && p.mode == Live && p'.mode == Live
    requires !(step.Io? && step.op.WriteSuper? && step.op.s.oldestGen != p.l.base)
    ensures forall x :: x in Visible(p) ==> x in Visible(p')
  {
    match step
    case Io(op) =>
      if op.WriteHeader? {
        FlatOpen(p.l);
      } else if op.WriteData? {
        FlatExtend(p.l, p.buf);
      }
    case Accept(e) =>
    case Damage(_, _) =>
    case PowerOn =>
    case PowerLoss =>
    case PowerLossDuring(_) =>
  }

  // ---------- The ring over whole runs ----------

  /** slots: what the ring holds on disk, None where nothing validates. issued: every anchor
      whose write was ever synced. */
  datatype R = R(p: P, slots: seq<Option<Anchor>>, issued: set<Anchor>)

  datatype RStep = StoreStep(step: Step) | Put(slot: nat, a: Anchor) | PowerLossDuringPut(slot: nat, a: Anchor)

  ghost predicate RingOk(slots: seq<Option<Anchor>>)
  {
    SlotsDistinct(slots) && Sound(RingAnchors(slots))
  }

  /** A slot may be reused when no boot that its anchor dates can still be read. */
  ghost predicate Reusable(p: P, slots: seq<Option<Anchor>>, slot: nat)
    requires slot < |slots|
  {
    slots[slot].Some? ==> !BootRetained(p, slots[slot].value.boot)
  }

  ghost predicate PutAllowed(r: R, slot: nat, a: Anchor)
  {
    && r.p.mode == Live && r.p.buf == [] && BootRetained(r.p, r.p.boot)
    && slot < |r.slots| && Reusable(r.p, r.slots, slot)
    && AnchorOk(a) && a.boot == r.p.boot
    && forall i :: 0 <= i < |r.slots| && r.slots[i].Some? ==> r.slots[i].value.sequence < a.sequence
  }

  ghost predicate RNext(r: R, step: RStep, r': R)
  {
    match step
    case StoreStep(s) => Next(r.p, s, r'.p) && r' == r.(p := r'.p)
    case Put(i, a) => PutAllowed(r, i, a) && r' == r.(slots := r.slots[i := Some(a)], issued := r.issued + {a})
    case PowerLossDuringPut(i, a) =>
      && PutAllowed(r, i, a) && Restarts(r.p, r.p.d, r'.p)
      && exists c :: TornCopy(r.slots[i], a, c) && r' == r.(p := r'.p, slots := r.slots[i := c])
  }

  /** Every anchor ever issued for a boot that still has an entry is in the ring. */
  ghost predicate AnchorsKept(r: R)
  {
    forall a :: a in r.issued && BootRetained(r.p, a.boot) ==> Some(a) in r.slots
  }

  ghost predicate RInv(r: R)
  {
    && Inv(r.p) && RingOk(r.slots) && AnchorsKept(r)
    && (forall a :: a in r.issued ==> a.boot <= r.p.boot)
    && (r.p.mode == Live ==> forall a :: a in r.issued && a.boot == r.p.boot ==> BootRetained(r.p, r.p.boot))
  }

  /** A ring that has never held an anchor keeps every anchor needed. */
  lemma EmptyRingKeeps(p: P, slots: nat)
    requires Inv(p)
    ensures RInv(R(p, seq(slots, _ => None), {}))
  {
    hide Inv;
    assert RingAnchors(seq(slots, _ => None)) == {};
  }

  lemma StoreStepKeepsAnchors(r: R, s: Step, p': P)
    requires Inv(r.p) && AnchorsKept(r) && Next(r.p, s, p')
    requires r.p.mode == Live ==> forall a :: a in r.issued && a.boot == r.p.boot ==> BootRetained(r.p, r.p.boot)
    ensures AnchorsKept(r.(p := p'))
  {
    hide Inv, Next, BootRetained;
    forall a | a in r.issued && BootRetained(p', a.boot) ensures Some(a) in r.slots {
      BootsOnlyLeave(r.p, s, p', a.boot);
    }
  }

  lemma StoreStepRetains(r: R, s: Step, r': R)
    requires RInv(r) && RNext(r, StoreStep(s), r')
    ensures RInv(r')
  {
    hide Inv, Next, RingOk, AnchorsKept, BootRetained;
    StepKeeps(r.p, s, r'.p);
    BootNeverFalls(r.p, s, r'.p);
    StoreStepKeepsAnchors(r, s, r'.p);
    if r'.p.mode == Live && r.p.mode == Live && BootRetained(r.p, r.p.boot) {
      CurrentBootStays(r.p, s, r'.p);
    }
  }

  lemma SlotReplaced(slots: seq<Option<Anchor>>, i: nat, c: Option<Anchor>)
    requires RingOk(slots) && i < |slots|
    requires c.Some? ==> AnchorOk(c.value) && forall j :: 0 <= j < |slots| && slots[j].Some? ==>
             slots[j].value.sequence < c.value.sequence
    ensures RingOk(slots[i := c])
  {
    var now := slots[i := c];
    forall a | a in RingAnchors(now) ensures AnchorOk(a) && exists j :: 0 <= j < |now| && now[j] == Some(a) {
      var j :| 0 <= j < |now| && now[j] == Some(a);
      if j != i {
        assert slots[j] in slots && a in RingAnchors(slots);
      }
    }
    forall a, b | a in RingAnchors(now) && b in RingAnchors(now) && a.sequence == b.sequence ensures a == b {
      var j :| 0 <= j < |now| && now[j] == Some(a);
      var k :| 0 <= k < |now| && now[k] == Some(b);
    }
  }

  /** Replacing one slot loses only that slot's anchor. */
  lemma OthersStay(slots: seq<Option<Anchor>>, i: nat, c: Option<Anchor>, a: Anchor)
    requires i < |slots| && Some(a) in slots && slots[i] != Some(a)
    ensures Some(a) in slots[i := c]
  {
    var j :| 0 <= j < |slots| && slots[j] == Some(a);
    assert slots[i := c][j] == Some(a);
  }

  lemma PutRetains(r: R, i: nat, a: Anchor, r': R)
    requires RInv(r) && RNext(r, Put(i, a), r')
    ensures RInv(r')
  {
    SlotReplaced(r.slots, i, Some(a));
    hide Inv, RingOk;
    forall b | b in r'.issued && BootRetained(r'.p, b.boot) ensures Some(b) in r'.slots {
      if b == a {
        assert r'.slots[i] == Some(a);
      } else {
        OthersStay(r.slots, i, Some(a), b);
      }
    }
  }

  lemma TornPutRetains(r: R, i: nat, a: Anchor, r': R)
    requires RInv(r) && RNext(r, PowerLossDuringPut(i, a), r')
    ensures RInv(r')
  {
    hide Inv, RingOk, Restarts, AnchorsKept;
    var c :| TornCopy(r.slots[i], a, c) && r' == r.(p := r'.p, slots := r.slots[i := c]);
    StepKeeps(r.p, PowerLoss, r'.p);
    BootNeverFalls(r.p, PowerLoss, r'.p);
    TornSlot(r.slots, i, a, c);
    TornPutKeeps(r, i, a, c, r');
    LeftLive(r.p, r'.p);
  }

  lemma LeftLive(p: P, p': P)
    requires Next(p, PowerLoss, p')
    ensures p'.mode != Live
  {
  }

  lemma TornSlot(slots: seq<Option<Anchor>>, i: nat, a: Anchor, c: Option<Anchor>)
    requires RingOk(slots) && i < |slots| && TornCopy(slots[i], a, c) && AnchorOk(a)
    requires forall j :: 0 <= j < |slots| && slots[j].Some? ==> slots[j].value.sequence < a.sequence
    ensures RingOk(slots[i := c])
  {
    if c == slots[i] {
      assert slots[i := c] == slots;
    } else {
      SlotReplaced(slots, i, c);
    }
  }

  lemma TornPutKeeps(r: R, i: nat, a: Anchor, c: Option<Anchor>, r': R)
    requires AnchorsKept(r) && Inv(r.p) && PutAllowed(r, i, a) && Next(r.p, PowerLoss, r'.p) &&
             r' == r.(p := r'.p, slots := r.slots[i := c])
    requires TornCopy(r.slots[i], a, c)
    ensures AnchorsKept(r')
  {
    hide Inv, Next;
    forall b | b in r'.issued && BootRetained(r'.p, b.boot) ensures Some(b) in r'.slots {
      BootsOnlyLeave(r.p, PowerLoss, r'.p, b.boot);
      OthersStay(r.slots, i, c, b);
    }
  }

  lemma RStepRetains(r: R, step: RStep, r': R)
    requires RInv(r) && RNext(r, step, r')
    ensures RInv(r')
  {
    match step
    case StoreStep(s) => StoreStepRetains(r, s, r');
    case Put(i, a) => PutRetains(r, i, a, r');
    case PowerLossDuringPut(i, a) => TornPutRetains(r, i, a, r');
  }

  ghost predicate IsRingRun(states: seq<R>, steps: seq<RStep>)
  {
    && |states| == |steps| + 1
    && forall i :: 0 <= i < |steps| ==> RNext(states[i], steps[i], states[i + 1])
  }

  /** Anchor retention: in every state of every run, whatever crashes it contains, each anchor issued for a boot that
      still has a readable entry is in the ring. */
  lemma {:induction false} AnchorsRetained(states: seq<R>, steps: seq<RStep>, i: nat)
    requires IsRingRun(states, steps) && i < |states| && RInv(states[0])
    ensures RInv(states[i])
  {
    hide RInv, RNext;
    if i > 0 {
      AnchorsRetained(states, steps, i - 1);
      RStepRetains(states[i - 1], steps[i - 1], states[i]);
    }
  }

  // ---------- Dates are stable ----------

  ghost predicate SameDating(slots: seq<Option<Anchor>>, slots': seq<Option<Anchor>>, boot: nat)
  {
    forall a, uptime :: Governs(RingAnchors(slots), a, boot, uptime) <==> Governs(RingAnchors(slots'), a, boot, uptime)
  }

  lemma SlotAgrees(slots: seq<Option<Anchor>>, i: nat, c: Option<Anchor>, boot: nat)
    requires i < |slots| && (slots[i].Some? ==> slots[i].value.boot != boot) && (c.Some? ==> c.value.boot != boot)
    ensures AgreeOn(RingAnchors(slots), RingAnchors(slots[i := c]), boot)
  {
    forall x: Anchor | x.boot == boot ensures x in RingAnchors(slots) <==> x in RingAnchors(slots[i := c]) {
      if x in RingAnchors(slots) {
        OthersStay(slots, i, c, x);
      }
      if x in RingAnchors(slots[i := c]) {
        var j :| 0 <= j < |slots| && slots[i := c][j] == Some(x);
        assert slots[j] == Some(x);
      }
    }
  }

  lemma SlotKeepsDating(slots: seq<Option<Anchor>>, i: nat, c: Option<Anchor>, boot: nat)
    requires RingOk(slots) && i < |slots| && RingOk(slots[i := c])
    requires (slots[i].Some? ==> slots[i].value.boot != boot) && (c.Some? ==> c.value.boot != boot)
    ensures SameDating(slots, slots[i := c], boot)
  {
    SlotAgrees(slots, i, c, boot);
    hide AgreeOn, Governs, RingAnchors;
    forall a, uptime
      ensures Governs(RingAnchors(slots), a, boot, uptime) <==> Governs(RingAnchors(slots[i := c]), a, boot, uptime)
    {
      GovernsLocal(RingAnchors(slots), RingAnchors(slots[i := c]), a, boot, uptime);
    }
  }

  /** No step, not even power loss while an anchor is written, changes how a boot before the running one is dated, as
      long as an entry of that boot can still be read. */
  lemma RStepKeepsDating(r: R, step: RStep, r': R, boot: nat)
    requires RInv(r) && RNext(r, step, r') && boot < r.p.boot && BootRetained(r'.p, boot)
    ensures SameDating(r.slots, r'.slots, boot) && BootRetained(r.p, boot)
  {
    RStepRetains(r, step, r');
    hide Inv, RingOk, SameDating, AnchorsKept, Restarts, Next, BootRetained;
    match step
    case StoreStep(s) =>
      BootsOnlyLeave(r.p, s, r'.p, boot);
      SameDatingReflexive(r.slots, boot);
    case Put(i, a) =>
      SlotKeepsDating(r.slots, i, Some(a), boot);
    case PowerLossDuringPut(i, a) =>
      var c :| TornCopy(r.slots[i], a, c) && r' == r.(p := r'.p, slots := r.slots[i := c]);
      BootsOnlyLeave(r.p, PowerLoss, r'.p, boot);
      TornKeepsDating(r.slots, i, a, c, boot);
  }

  lemma TornKeepsDating(slots: seq<Option<Anchor>>, i: nat, a: Anchor, c: Option<Anchor>, boot: nat)
    requires RingOk(slots) && i < |slots| && TornCopy(slots[i], a, c) && RingOk(slots[i := c])
    requires (slots[i].Some? ==> slots[i].value.boot != boot) && a.boot != boot
    ensures SameDating(slots, slots[i := c], boot)
  {
    SlotKeepsDating(slots, i, c, boot);
  }

  lemma SameDatingReflexive(slots: seq<Option<Anchor>>, boot: nat)
    ensures SameDating(slots, slots, boot)
  {
  }

  /** Dates are stable: over any run, with any crashes, an entry that can still be read and was written before the boot
      running at its start is dated by the same anchor at the end as at the start, at every uptime of its boot. */
  lemma {:induction false} DatingIsStable(states: seq<R>, steps: seq<RStep>, i: nat, j: nat, boot: nat)
    requires IsRingRun(states, steps) && RInv(states[0]) && i <= j < |states|
    requires boot < states[i].p.boot && BootRetained(states[j].p, boot)
    ensures SameDating(states[i].slots, states[j].slots, boot) && BootRetained(states[i].p, boot)
    ensures states[i].p.boot <= states[j].p.boot
    decreases j - i
  {
    hide Inv, SameDating, BootRetained, RInv, RNext;
    if i < j {
      BootsRise(states, steps, i, j - 1);
      AnchorsRetained(states, steps, j - 1);
      RStepKeepsDating(states[j - 1], steps[j - 1], states[j], boot);
      RingBootNeverFalls(states[j - 1], steps[j - 1], states[j]);
      DatingIsStable(states, steps, i, j - 1, boot);
      SameDatingTransitive(states[i].slots, states[j - 1].slots, states[j].slots, boot);
    } else {
      SameDatingReflexive(states[i].slots, boot);
    }
  }

  lemma SameDatingTransitive(a: seq<Option<Anchor>>, b: seq<Option<Anchor>>, c: seq<Option<Anchor>>, boot: nat)
    requires SameDating(a, b, boot) && SameDating(b, c, boot)
    ensures SameDating(a, c, boot)
  {
    hide Governs;
  }

  lemma RingBootNeverFalls(r: R, step: RStep, r': R)
    requires RInv(r) && RNext(r, step, r')
    ensures r.p.boot <= r'.p.boot
  {
    hide Inv, Restarts;
    match step
    case StoreStep(s) => BootNeverFalls(r.p, s, r'.p);
    case Put(_, _) =>
    case PowerLossDuringPut(_, _) => BootNeverFalls(r.p, PowerLoss, r'.p);
  }

  lemma {:induction false} BootsRise(states: seq<R>, steps: seq<RStep>, i: nat, j: nat)
    requires IsRingRun(states, steps) && RInv(states[0]) && i <= j < |states|
    ensures states[i].p.boot <= states[j].p.boot
    decreases j - i
  {
    hide RInv, RNext;
    if i < j {
      BootsRise(states, steps, i, j - 1);
      AnchorsRetained(states, steps, j - 1);
      RingBootNeverFalls(states[j - 1], steps[j - 1], states[j]);
    }
  }

  /** Anchor retention along the run that a store accumulates. */
  lemma {:induction false} TraceRetains(t: Trace, later: Trace, slots: seq<Option<Anchor>>, issued: set<Anchor>)
    requires Legal(later) && Within(t, later) && RInv(R(t.p, slots, issued))
    ensures RInv(R(later.p, slots, issued))
  {
    if later != t {
      TraceRetains(t, later.before, slots, issued);
      StoreStepRetains(R(later.before.p, slots, issued), later.step, R(later.p, slots, issued));
    }
  }

  // ---------- Which boots the descriptors say are retained ----------

  predicate Spans(d: Desc, boot: nat)
  {
    d.valid && d.count > 0 && Boot(d.first) <= boot <= Boot(d.last)
  }

  /** A boot with a readable entry lies within the boots of some segment, buffered entries included. */
  lemma RetainedIsSpanned(p: P, segments: seq<Desc>, boot: nat)
    requires Inv(p) && p.mode == Live && SegmentsOk(p, segments, false) && BootRetained(p, boot)
    ensures exists i :: 0 <= i < |segments| && Spans(segments[i], boot)
  {
    InvShape(p);
    ViewRuns(p);
    ViewSorted(p);
    var x :| x in Visible(p) && Boot(x.id) == boot;
    FlatMember(View(p), x);
    var k :| 0 <= k < |View(p)| && x in View(p)[k];
    RunBounds(View(p)[k], x);
    var i := SegmentOfRank(p, segments, k);
    BootMonotone(FirstId(View(p)[k]), x.id);
    BootMonotone(x.id, LastId(View(p)[k]));
    assert Spans(segments[i], boot);
  }

  lemma SegmentOfRank(p: P, segments: seq<Desc>, k: nat) returns (i: nat)
    requires Shape(p.l, |p.d.files|) && SegmentsOk(p, segments, false) && k < |p.l.segs|
    ensures i < |segments|
    ensures segments[i] == DescOf(IdentOf(p, k), RunOf(p, k), k + 1 < |p.l.segs|, IndexCount(|RunOf(p, k)|))
  {
    RankSlot(p.l, k, |p.d.files|);
    i := IdentOf(p, k).slot;
    assert segments[i] == DescAt(p, i, false);
  }

  // ---------- The ring as the store keeps it ----------

  datatype AnchorInput = AnchorInput(monotonic: nat, utc: nat, replace: nat, origin: Origin)

  datatype AnchorStatus = Appended | BadArgument | Exhausted | NoRoom

  predicate Replaceable(slots: seq<Option<Anchor>>, replace: nat, boot: nat)
  {
    replace == 0 || exists i ::
        0 <= i < |slots| && slots[i].Some? && slots[i].value.sequence == replace && slots[i].value.boot == boot
  }

  method CountBits(value: nat) returns (count: nat)
    ensures count == BitCount(value)
  {
    var rest := value;
    count := 0;
    while rest != 0
      invariant count + BitCount(rest) == BitCount(value)
    {
      count, rest := count + rest % 2, rest / 2;
    }
  }

  class AnchorRing {
    const source: Store
    const table: EpochTable
    var slots: seq<Option<Anchor>>
    var nextSequence: nat
    var writeIndex: nat
    var used: nat
    ghost var issued: set<Anchor>

    /** A ring with this content on disk, not loaded yet. */
    constructor (source: Store, table: EpochTable, slots: seq<Option<Anchor>>, ghost issued: set<Anchor>)
      ensures this.source == source && this.table == table && this.slots == slots && this.issued == issued
    {
      this.source, this.table, this.slots, this.issued := source, table, slots, issued;
      nextSequence, writeIndex, used := 0, 0, 0;
    }

    /** The ring keeps every anchor still needed, and the catalog is the model of the anchors in the ring. */
    ghost predicate Valid()
      reads this, source, table, table.epochs
    {
      && source.Valid() && Loaded()
      && RInv(R(source.p, slots, issued))
      && BootRetained(source.p, source.p.boot) && 0 < source.p.boot
    }

    /** Catalog and counters are those of the ring's content. */
    ghost predicate Loaded()
      reads this, table, table.epochs
    {
      && table.Valid() && |slots| == table.epochs.Length > 0
      && Catalogued(RingAnchors(slots), table.Table()) && Bounded(table.Table())
      && LoadedFrom(slots, nextSequence, writeIndex)
    }

    /** Reloads the catalog and the counters from the slots. */
    method Load()
      requires |slots| == table.epochs.Length > 0 && RingOk(slots)
      modifies this`nextSequence, this`writeIndex, this`used, table, table.epochs
      ensures Loaded() && used == Occupied(slots)
    {
      hide Catalogued, Bounded;
      nextSequence, used, writeIndex := table.LoadCatalog(slots);
    }

    /** Switching on: the log is recovered, the boot is recorded, and the ring is loaded.
        From then on the ring is valid. */
    method Start(resetReason: seq<byte>, now: U64) returns (status: Status)
      requires source.Running() && source.p.mode == Down && source.writeBuf == [] && |resetReason| == 8
      requires |slots| == table.epochs.Length > 0 && RInv(R(source.p, slots, issued))
      modifies this`nextSequence, this`writeIndex, this`used, source, table, table.epochs
      ensures slots == old(slots) && issued == old(issued)
      ensures status == Ok <==> HeadersLoad(old(source.disk)) && old(source.p).boot < BOOT_MASK
      ensures status == Ok ==> Valid()
    {
      hide source.Valid, RInv, Inv, Legal, Within, Catalogued, Bounded, LoadedFrom, AnchorsKept, HeadersLoad;
      ghost var before := source.run;
      RingSound(R(source.p, slots, issued));
      status := source.Init(resetReason, now);
      if status != Ok {
        return;
      }
      SourceTrace(source);
      TraceRetains(before, source.run, slots, issued);
      BootIsRetained(source.p);
      Load();
    }

    method IsRetainedBoot(boot: nat) returns (retained: bool)
      ensures retained <==> exists i :: 0 <= i < |source.segments| && Spans(source.segments[i], boot)
    {
      for slot := 0 to |source.segments|
        invariant forall i :: 0 <= i < slot ==> !Spans(source.segments[i], boot)
      {
        var d := source.segments[slot];
        if d.valid && d.count > 0 && Boot(d.first) <= boot && Boot(d.last) >= boot {
          assert Spans(source.segments[slot], boot);
          return true;
        }
      }
      retained := false;
    }

    /** The slot may be overwritten: it holds nothing valid, or an anchor of a boot that no segment spans any more. */
    method CheckSlotReuse(slot: nat) returns (ok: bool)
      requires slot < |slots|
      ensures ok <==> slots[slot] == None ||
                      !(exists i :: 0 <= i < |source.segments| && Spans(source.segments[i], slots[slot].value.boot))
    {
      if slots[slot] == None {
        return true;
      }
      var retained := IsRetainedBoot(slots[slot].value.boot);
      ok := !retained;
    }

    /** An input is refused exactly when the anchor made of it would not be valid in its slot. */
    method IsInputValid(input: AnchorInput) returns (ok: bool)
      ensures ok <==> OriginOk(input.origin) && input.utc != 0 && input.replace <= nextSequence
    {
      var o := input.origin;
      var bits := CountBits(o.sources);
      ok := 0 < o.sources <= SOURCES_ALL && 0 < o.count && bits <= o.count && o.quality <= 1 && o.flags <= FLAGS_ALL &&
            input.utc != 0 && input.replace <= nextSequence;
    }

    /** Only an anchor of the running boot may be replaced. */
    method ValidateReplacement(replace: nat, boot: nat) returns (ok: bool)
      requires SlotsDistinct(slots)
      ensures ok <==> Replaceable(slots, replace, boot)
    {
      if replace == 0 {
        return true;
      }
      for slot := 0 to |slots|
        invariant forall i :: 0 <= i < slot && slots[i].Some? ==> slots[i].value.sequence != replace
      {
        if slots[slot].Some? && slots[slot].value.sequence == replace {
          return slots[slot].value.boot == boot;
        }
      }
      ok := false;
    }

    /** Appends an anchor of the running boot to the slot after the newest one, unless that
        slot's anchor is still needed. */
    method AppendTimeAnchor(input: AnchorInput) returns (status: AnchorStatus)
      requires Valid() && input.monotonic <= U64_MAX && input.utc <= U64_MAX
      modifies this, source, table, table.epochs
      ensures Valid() && Within(old(source.run), source.run)
      ensures status == old(Verdict(input))
      ensures status != Appended ==> slots == old(slots) && issued == old(issued) && source.p == old(source.p)
      ensures status == Appended ==> source.p.buf == [] && source.p.hist == old(source.p.hist + source.p.buf)
      ensures status == Appended ==>
        var a :=
          Anchor(old(nextSequence) + 1, old(source.p.boot), input.monotonic, input.utc, input.replace, input.origin,
                 old(source.newestEntryId));
        && old(writeIndex) < old(|slots|) && slots == old(slots)[old(writeIndex) := Some(a)] &&
           issued == old(issued) + {a}
    {
      hide source.Valid, RInv, Inv, Legal, Within, Catalogued, Bounded, LoadedFrom, AnchorsKept, Reusable, BootRetained,
           SlotsDistinct;
      WithinChains();
      RingFacts();
      var acceptable := IsInputValid(input);
      if !acceptable {
        return BadArgument;
      }
      if nextSequence == U64_MAX {
        return Exhausted;
      }
      var allowed := ValidateReplacement(input.replace, source.state.boot);
      if !allowed {
        return BadArgument;
      }
      var free := CheckSlotReuse(writeIndex);
      if !free {
        return NoRoom;
      }
      var slot := writeIndex;
      var a := Anchor(nextSequence + 1, source.state.boot, input.monotonic, input.utc, input.replace, input.origin,
                      source.newestEntryId);
      FreeIsReusable(slot);
      PutAnchor(slot, a);
      status := Appended;
    }

    /** Everything read so far becomes durable first, then the anchor, then the superblock. */
    method PutAnchor(slot: nat, a: Anchor)
      requires Valid() && slot < |slots| && Reusable(source.p, slots, slot) && AnchorOk(a) && a.boot == source.p.boot
      requires forall i :: 0 <= i < |slots| && slots[i].Some? ==> slots[i].value.sequence < a.sequence
      modifies this, source, table, table.epochs
      ensures Valid() && Within(old(source.run), source.run)
      ensures source.p.buf == [] && source.p.hist == old(source.p.hist + source.p.buf)
      ensures slots == old(slots)[slot := Some(a)] && issued == old(issued) + {a}
    {
      hide source.Valid, RInv, Inv, Legal, Within, Catalogued, Bounded, LoadedFrom, AnchorsKept, Reusable, RingOk,
           BootRetained;
      WithinChains();
      Flush(slot);
      WriteSlot(slot, a);
      Load();
      Checkpoint();
    }

    /** What AppendTimeAnchor decides. */
    ghost function Verdict(input: AnchorInput): AnchorStatus
      requires Valid()
      reads this, source, table, table.epochs
    {
      if !OriginOk(input.origin) || input.utc == 0 || input.replace > nextSequence then BadArgument
      else if nextSequence == U64_MAX then Exhausted
      else if !Replaceable(slots, input.replace, source.p.boot) then BadArgument
      else if writeIndex < |slots| && slots[writeIndex].Some? &&
              (exists i :: 0 <= i < |source.segments| && Spans(source.segments[i], slots[writeIndex].value.boot)) then
                NoRoom
      else Appended
    }

    lemma RingFacts()
      requires Valid()
      ensures writeIndex < |slots| && SlotsDistinct(slots) && RingOk(slots) && source.state.boot == source.p.boot
      ensures nextSequence <= U64_MAX && 0 < source.p.boot <= BOOT_MASK
      ensures forall i :: 0 <= i < |slots| && slots[i].Some? ==> slots[i].value.sequence <= nextSequence
    {
      SourceBoot(source);
      SequenceFits(slots, nextSequence, writeIndex);
      hide source.Valid, Inv, Catalogued, Bounded, AnchorsKept, RingAnchors, SlotsDistinct;
    }

    lemma FreeIsReusable(slot: nat)
      requires Valid() && slot < |slots|
      requires slots[slot] == None ||
               !(exists i :: 0 <= i < |source.segments| && Spans(source.segments[i], slots[slot].value.boot))
      ensures Reusable(source.p, slots, slot)
    {
      SourceSegments(source);
      if slots[slot].Some? && BootRetained(source.p, slots[slot].value.boot) {
        RetainedIsSpanned(source.p, source.segments, slots[slot].value.boot);
      }
    }

    method Flush(slot: nat)
      requires Valid() && slot < |slots| && Reusable(source.p, slots, slot)
      modifies source
      ensures source.Valid() && Within(old(source.run), source.run) && source.p.buf == [] &&
              source.p.boot == old(source.p.boot)
      ensures source.p.mode == Live
      ensures source.state.boot == source.p.boot && source.p.hist == old(source.p.hist + source.p.buf)
      ensures RInv(R(source.p, slots, issued)) && BootRetained(source.p, source.p.boot) &&
              Reusable(source.p, slots, slot)
    {
      hide source.Valid, RInv, Inv, Legal, Within, Visible, Catalogued, Bounded, LoadedFrom;
      ghost var was := source.p;
      FlushShows(source);
      source.FlushWrite();
      SettledSame(was, source.p);
      SourceBoot(source);
      SourceTrace(source);
      TraceRetains(old(source.run), source.run, slots, issued);
    }

    method WriteSlot(slot: nat, a: Anchor)
      requires slot < |slots| && RInv(R(source.p, slots, issued)) && PutAllowed(R(source.p, slots, issued), slot, a)
      modifies this`slots, this`issued
      ensures slots == old(slots)[slot := Some(a)] && issued == old(issued) + {a} && RInv(R(source.p, slots, issued)) &&
              RingOk(slots)
    {
      ghost var before := R(source.p, slots, issued);
      slots := slots[slot := Some(a)];
      issued := issued + {a};
      PutRetains(before, slot, a, R(source.p, slots, issued));
    }

    method Checkpoint()
      requires source.Valid() && Loaded() && RInv(R(source.p, slots, issued)) &&
               BootRetained(source.p, source.p.boot) && 0 < source.p.boot
      modifies source
      ensures Valid() && Within(old(source.run), source.run) && source.p == old(source.p).(d := source.p.d)
    {
      hide source.Valid, RInv, Inv, Legal, Within, Catalogued, Bounded, LoadedFrom;
      ghost var was := source.p;
      SourceTrace(source);
      source.Checkpoint();
      SourceTrace(source);
      TraceRetains(old(source.run), source.run, slots, issued);
    }
  }

  ghost predicate LoadedFrom(slots: seq<Option<Anchor>>, nextSequence: nat, writeIndex: nat)
    requires slots != []
  {
    exists slot ::
        IsNewest(slots, nextSequence, slot) && writeIndex == if nextSequence == 0 then 0 else Following(slot, |slots|)
  }

  lemma SequenceFits(slots: seq<Option<Anchor>>, nextSequence: nat, writeIndex: nat)
    requires slots != [] && RingOk(slots) && LoadedFrom(slots, nextSequence, writeIndex)
    ensures nextSequence <= U64_MAX && writeIndex < |slots|
    ensures forall i :: 0 <= i < |slots| && slots[i].Some? ==> slots[i].value.sequence <= nextSequence
  {
    var slot: nat :| IsNewest(slots, nextSequence, slot) &&
      writeIndex == if nextSequence == 0 then 0 else Following(slot, |slots|);
    if nextSequence != 0 {
      assert slot < |slots| && slots[slot].Some?;
      assert slots[slot] in slots && slots[slot].value in RingAnchors(slots);
    }
  }

  lemma RingSound(r: R)
    requires RInv(r)
    ensures RingOk(r.slots)
  {
  }

  lemma BootIsRetained(p: P)
    requires exists e :: e in Visible(p) && Boot(e.id) == p.boot
    ensures BootRetained(p, p.boot)
  {
  }

  lemma SourceBoot(source: Store)
    requires source.Valid()
    ensures source.state.boot == source.p.boot <= BOOT_MASK
  {
    BootFits(source.p);
    hide Inv, Legal;
  }

  lemma BootFits(p: P)
    ensures Inv(p) ==> p.boot <= BOOT_MASK
  {
  }

  lemma SourceSegments(source: Store)
    requires source.Valid()
    ensures Inv(source.p) && source.p.mode == Live && SegmentsOk(source.p, source.segments, false)
  {
    hide Inv, Legal, SegmentsOk;
  }

  lemma SourceTrace(source: Store)
    requires source.Valid()
    ensures Legal(source.run) && source.run.p == source.p && source.p.mode == Live
  {
    hide Inv, Legal;
  }

  lemma FlushShows(source: Store)
    requires source.Valid()
    ensures source.p.l.segs != [] && Legal(source.run) && source.run.p == source.p
  {
    hide Inv, Legal;
    InvShape(source.p);
  }

  /** Flushing changes neither what can be read nor the boot. */
  lemma SettledSame(p: P, q: P)
    requires p.l.segs != [] && q == Settled(p).(d := q.d)
    ensures Visible(q) == Visible(p) && q.boot == p.boot && q.buf == [] && q.mode == p.mode && q.hist == p.hist + p.buf
  {
    if p.buf == [] {
      assert p.hist + p.buf == p.hist;
    } else {
      FlatExtend(p.l, p.buf);
      assert Flat(p.l.segs) + p.buf + [] == Flat(p.l.segs) + p.buf;
    }
  }
}
