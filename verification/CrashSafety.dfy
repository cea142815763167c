/** Power loss at any point of any run: what recovery finds, and the abstract log that every run refines. */
module CrashSafety {
  import opened Layout
  import opened Segment
  import opened Device
  import opened Protocol
  import opened Recovery
  import opened Runs

  /** What a crash during a write may leave of the log: the log before it, the log after it, or, for a data write, the
      log before it plus a prefix of the entries in flight. */
  ghost predicate Outcome(p: P, op: Op, l': Log)
    requires OpInRange(op, |p.d.files|)
  {
    if op.WriteData? then exists k :: 0 <= k <= |p.buf| && l' == Extend(p.l, p.buf[..k])
    else l' == p.l || l' == After(p, op).l
  }

  lemma CrashOutcome(p: P, op: Op, d: Disk) returns (l': Log, boot: nat)
    requires StorageOk(p) && Allowed(p, op) && Torn(p.d, op, d)
    ensures DiskInv(d, l', boot, p.last) && Outcome(p, op, l') && p.boot <= boot
  {
    hide DiskInv, Ready, Recovers, IndexMatches, PendingOk, HasFooter;
    l', boot := p.l, p.boot;
    match op
    case WriteSuper(copy, s) =>
      var c :| TornCopy(if copy == 0 then p.d.sb0 else p.d.sb1, s, c) && d == SetSuper(p.d, copy, c);
      SuperTorn(p.d, p.l, p.boot, p.last, copy, s, c);
      if c == Some(s) {
        l', boot := LogAfterSuper(p.l, |p.d.files|, s), s.boot;
      }
    case WriteHeader(slot, copy, at) =>
      l' := HeaderOutcome(p, slot, copy, at, d);
    case WriteData(slot, start, es) =>
      var c :| TornCells(p.d.files[slot].cells, start, es, c) && d == SetFile(p.d, slot, p.d.files[slot].(cells := c));
      var k := DataTorn(p.d, p.l, p.boot, p.last, p.buf, c);
      l' := Extend(p.l, p.buf[..k]);
    case WriteIndex(slot, items) =>
      var c :| d == SetFile(p.d, slot, p.d.files[slot].(index := c));
      IndexTorn(p.d, p.l, p.boot, p.last, slot, c);
    case WriteFooter(slot, copy, f) =>
      var c :| TornCopy(if copy == 0 then p.d.files[slot].f0 else p.d.files[slot].f1, f, c) &&
               d == SetFile(p.d, slot, SetFooter(p.d.files[slot], copy, c));
      SlotRank(p.l, slot, |p.d.files|);
      FooterTorn(p.d, p.l, p.boot, p.last, RankOf(p.l.first, slot, |p.d.files|), slot, copy, f, c);
  }

  lemma HeaderOutcome(p: P, slot: nat, copy: nat, at: Ident, d: Disk) returns (l': Log)
    requires StorageOk(p) && Allowed(p, WriteHeader(slot, copy, at)) && Torn(p.d, WriteHeader(slot, copy, at), d)
    ensures DiskInv(d, l', p.boot, p.last) && (l' == p.l || l' == After(p, WriteHeader(slot, copy, at)).l)
  {
    var c :| TornCopy(if copy == 0 then p.d.files[slot].h0 else p.d.files[slot].h1, at, c) &&
             d == SetFile(p.d, slot, SetHeader(p.d.files[slot], copy, c));
    if copy != 0 {
      l' := p.l;
      SecondHeaderTorn(p.d, p.l, p.boot, p.last, slot, c);
    } else {
      l' := FirstHeaderOutcome(p.d, p.l, p.boot, p.last, slot, c);
    }
  }

  lemma FirstHeaderOutcome(d: Disk, l: Log, boot: nat, last: nat, slot: nat, c: Option<Ident>) returns (l': Log)
    requires DiskInv(d, l, boot, last) && |l.segs| < |d.files| && slot == NextSlot(l, |d.files|) && slot < |d.files|
    requires TornCopy(d.files[slot].h0, Ident(d.store, slot, Top(l) + 1), c)
    ensures DiskInv(SetFile(d, slot, d.files[slot].(h0 := c)), l', boot, last) && (l' == l || l' == Open(l))
  {
    if c == Some(Ident(d.store, slot, Top(l) + 1)) {
      FirstHeaderArrives(d, l, boot, last, slot);
      l' := Open(l);
    } else {
      FirstHeaderLost(d, l, boot, last, slot, c);
      l' := l;
    }
  }

  // ---------- When recovery succeeds ----------

  /** Recovery after a crash fails only if the crash left a slot without an intact header. */
  lemma RecoverableIffHeadersLoad(p: P, op: Op, d: Disk)
    requires Inv(p) && Allowed(p, op) && Torn(p.d, op, d)
    ensures (exists l' :: Recovers(d, l')) <==> HeadersLoad(d)
  {
    if HeadersLoad(d) {
      var l', boot := CrashOutcome(p, op, d);
      InvRecovers(d, l', boot, p.last);
    }
  }

  /** No write other than the first header of an activation can cost a slot its last intact header. */
  lemma OnlyActivationRisksHeaders(p: P, op: Op, d: Disk)
    requires Inv(p) && HeadersLoad(p.d) && Allowed(p, op) && Torn(p.d, op, d)
    requires !(op.WriteHeader? && op.copy == 0)
    ensures HeadersLoad(d)
  {
    hide Inv;
    forall i | 0 <= i < |d.files| ensures LoadHeader(d.files[i], d.store, i).Some? {
      assert LoadHeader(p.d.files[i], p.d.store, i).Some?;
    }
  }

  /** Activating a slot survives every crash outcome exactly when the slot's second header copy is intact beforehand.
      The store does not check this, and nothing rewrites a second copy that an earlier crash has torn. */
  lemma ActivationSafeIffSpareIntact(p: P, slot: nat, at: Ident)
    requires Inv(p) && HeadersLoad(p.d) && Allowed(p, WriteHeader(slot, 0, at))
    ensures (forall d :: Torn(p.d, WriteHeader(slot, 0, at), d) ==> HeadersLoad(d)) <==>
            HeaderValid(p.d.files[slot].h1, p.d.store, slot)
  {
    var op := WriteHeader(slot, 0, at);
    var torn := SetFile(p.d, slot, p.d.files[slot].(h0 := None));
    assert TornCopy(p.d.files[slot].h0, at, None) && torn == SetFile(p.d, slot, SetHeader(p.d.files[slot], 0, None));
    assert Torn(p.d, op, torn);
    if HeaderValid(p.d.files[slot].h1, p.d.store, slot) {
      forall d | Torn(p.d, op, d) ensures HeadersLoad(d) {
        forall i | 0 <= i < |d.files| ensures LoadHeader(d.files[i], d.store, i).Some? {
          assert LoadHeader(p.d.files[i], p.d.store, i).Some?;
        }
      }
    } else {
      assert LoadHeader(torn.files[slot], torn.store, slot) == None;
    }
  }

  /** Such a state arises in ordinary use: power loss during any second-header write can tear that copy,
      and recovery then succeeds without it. */
  lemma TornSpareArises(p: P, slot: nat, at: Ident) returns (d: Disk)
    requires Inv(p) && HeadersLoad(p.d) && Allowed(p, WriteHeader(slot, 1, at))
    ensures Torn(p.d, WriteHeader(slot, 1, at), d) && HeadersLoad(d) && (exists l' :: Recovers(d, l'))
    ensures slot < |d.files| && !HeaderValid(d.files[slot].h1, d.store, slot)
  {
    var op := WriteHeader(slot, 1, at);
    d := SetFile(p.d, slot, p.d.files[slot].(h1 := None));
    assert TornCopy(p.d.files[slot].h1, at, None) && d == SetFile(p.d, slot, SetHeader(p.d.files[slot], 1, None));
    assert Torn(p.d, op, d);
    OnlyActivationRisksHeaders(p, op, d);
    RecoverableIffHeadersLoad(p, op, d);
  }

  /** The steps that can put a second header copy down in this slot, whether they complete
      or power fails during them. */
  predicate WritesSpare(step: Step, slot: nat)
  {
    match step
    case Io(op) => op.WriteHeader? && op.slot == slot && op.copy == 1
    case PowerLossDuring(op) => op.WriteHeader? && op.slot == slot && op.copy == 1
    case _ => false
  }

  predicate SpareTorn(d: Disk, slot: nat)
  {
    slot < |d.files| && !HeaderValid(d.files[slot].h1, d.store, slot)
  }

  lemma StepKeepsSpare(p: P, step: Step, p': P, slot: nat)
    requires Next(p, step, p') && !WritesSpare(step, slot) && SpareTorn(p.d, slot)
    ensures SpareTorn(p'.d, slot)
  {
    hide Recovers, Acceptable, SuperAllowed, Gained, TornCells, Overwrite, OverwriteIndex, FooterOf, Sample,
         IndexMatches;
  }

  /** Once the second header copy of a slot is torn it stays torn through any number of writes, accepted entries,
      crashes, restarts and recoveries, until a second header copy is written to that very slot. */
  lemma {:induction false} TornSpareStays(states: seq<P>, steps: seq<Step>, slot: nat, i: nat, j: nat)
    requires IsRun(states, steps) && i <= j < |states| && SpareTorn(states[i].d, slot)
    requires forall k :: i <= k < j ==> !WritesSpare(steps[k], slot)
    ensures SpareTorn(states[j].d, slot)
    decreases j - i
  {
    hide Next, SpareTorn, WritesSpare;
    if i < j {
      TornSpareStays(states, steps, slot, i, j - 1);
      StepKeepsSpare(states[j - 1], steps[j - 1], states[j], slot);
    }
  }

  /** So the next activation of that slot, however much later, has a crash outcome from which recovery fails. */
  lemma TornSpareStrikes(states: seq<P>, steps: seq<Step>, slot: nat, i: nat, j: nat, at: Ident) returns (d: Disk)
    requires IsRun(states, steps) && Inv(states[0]) && i <= j < |states| && SpareTorn(states[i].d, slot)
    requires forall k :: i <= k < j ==> !WritesSpare(steps[k], slot)
    requires Allowed(states[j], WriteHeader(slot, 0, at))
    ensures Torn(states[j].d, WriteHeader(slot, 0, at), d) && !HeadersLoad(d) && !exists l :: Recovers(d, l)
  {
    var p := states[j];
    TornSpareStays(states, steps, slot, i, j);
    d := SetFile(p.d, slot, p.d.files[slot].(h0 := None));
    assert TornCopy(p.d.files[slot].h0, at, None) && d == SetFile(p.d, slot, SetHeader(p.d.files[slot], 0, None));
    assert LoadHeader(d.files[slot], d.store, slot) == None;
  }

  ghost predicate SparesIntact(d: Disk)
  {
    forall i :: 0 <= i < |d.files| ==> HeaderValid(d.files[i].h1, d.store, i)
  }

  predicate TearsSpare(step: Step) { step.PowerLossDuring? && step.op.WriteHeader? && step.op.copy == 1 }

  lemma StepKeepsSpares(p: P, step: Step, p': P)
    requires Next(p, step, p') && !TearsSpare(step) && SparesIntact(p.d)
    ensures SparesIntact(p'.d)
  {
    hide Recovers, Acceptable, SuperAllowed, Gained, TornCells, Overwrite, OverwriteIndex, FooterOf, Sample,
         IndexMatches;
    forall i | 0 <= i < |p'.d.files| ensures HeaderValid(p'.d.files[i].h1, p'.d.store, i) {
      assert HeaderValid(p.d.files[i].h1, p.d.store, i);
    }
  }

  /** A store that starts with both headers of every slot intact, and never loses power during a second-header write,
      can lose power at any other moment, any number of times, and always be recovered. */
  lemma RecoverableWhileSparesIntact(states: seq<P>, steps: seq<Step>, j: nat, op: Op, d: Disk)
    requires IsRun(states, steps) && j < |states| && Inv(states[0]) && SparesIntact(states[0].d)
    requires forall k :: 0 <= k < j ==> !TearsSpare(steps[k])
    ensures SparesIntact(states[j].d) && Recovers(states[j].d, states[j].l)
    ensures Allowed(states[j], op) && Torn(states[j].d, op, d) ==> exists l :: Recovers(d, l)
  {
    hide Inv, Next, Torn, SparesIntact, TearsSpare, Recovers;
    SparesStay(states, steps, j);
    RunKeeps(states, steps, j);
    SparesRecover(states[j]);
    if Allowed(states[j], op) && Torn(states[j].d, op, d) {
      SparesSaveCrash(states[j], op, d);
    }
  }

  lemma {:induction false} SparesStay(states: seq<P>, steps: seq<Step>, j: nat)
    requires IsRun(states, steps) && j < |states| && SparesIntact(states[0].d)
    requires forall k :: 0 <= k < j ==> !TearsSpare(steps[k])
    ensures SparesIntact(states[j].d)
  {
    hide Next, SparesIntact, TearsSpare;
    if j > 0 {
      SparesStay(states, steps, j - 1);
      StepKeepsSpares(states[j - 1], steps[j - 1], states[j]);
    }
  }

  lemma SparesRecover(p: P)
    requires Inv(p) && SparesIntact(p.d)
    ensures HeadersLoad(p.d) && Recovers(p.d, p.l)
  {
    forall i | 0 <= i < |p.d.files| ensures LoadHeader(p.d.files[i], p.d.store, i).Some? {
      assert HeaderValid(p.d.files[i].h1, p.d.store, i);
    }
    InvRecovers(p.d, p.l, p.boot, p.last);
  }

  lemma SparesSaveCrash(p: P, op: Op, d: Disk)
    requires Inv(p) && SparesIntact(p.d) && Allowed(p, op) && Torn(p.d, op, d)
    ensures exists l :: Recovers(d, l)
  {
    SparesRecover(p);
    hide Inv, Recovers;
    if op.WriteHeader? && op.copy == 0 {
      assert HeaderValid(p.d.files[op.slot].h1, p.d.store, op.slot);
      ActivationSafeIffSpareIntact(p, op.slot, op.at);
    } else {
      OnlyActivationRisksHeaders(p, op, d);
    }
    RecoverableIffHeadersLoad(p, op, d);
  }

  // ---------- One crash ----------

  lemma GainedBy(l: Log, more: seq<Entry>)
    requires l.segs != []
    ensures Gained(l, Extend(l, more)) == more
  {
    assert LastSeg(Extend(l, more)) == LastSeg(l) + more;
  }

  /** Recovery after a crash during a write returns exactly one of the crash outcomes, and the invariant holds again. */
  lemma CrashKeeps(p: P, op: Op, p': P)
    requires Inv(p) && Next(p, PowerLossDuring(op), p')
    ensures Inv(p') && Outcome(p, op, p'.l)
  {
    var l', boot := CrashOutcome(p, op, p'.d);
    InvRecovers(p'.d, l', boot, p.last);
    RecoversUnique(p'.d, l', p'.l);
    CrashHistory(p, op, p'.l);
  }

  lemma CrashHistory(p: P, op: Op, l': Log)
    requires HistoryOk(p.l, p.buf, p.last, p.hist) && p.l.segs != [] && Allowed(p, op) && Outcome(p, op, l')
    ensures HistoryOk(l', [], p.last, p.hist + Gained(p.l, l'))
  {
    HistoryForgets(p.l, p.buf, p.last, p.hist);
    assert p.hist + [] == p.hist;
    if op.WriteData? {
      var k :| 0 <= k <= |p.buf| && l' == Extend(p.l, p.buf[..k]);
      GainedBy(p.l, p.buf[..k]);
      HistoryGains(p.l, p.buf, p.last, p.hist, k);
    } else {
      assert Gained(p.l, l') == [];
      if l' != p.l {
        HistoryForgets(p.l, p.buf, p.last, p.hist);
        HistoryRetiresOrOpens(p, op);
      }
    }
  }

  lemma HistoryRetiresOrOpens(p: P, op: Op)
    requires HistoryOk(p.l, [], p.last, p.hist) && p.l.segs != [] && Allowed(p, op) && !op.WriteData?
    ensures HistoryOk(After(p, op).l, [], p.last, p.hist)
  {
    if op.WriteSuper? && op.s.oldestGen != p.l.base {
      HistoryRetires(p.l, |p.d.files|, p.last, p.hist);
    } else if op.WriteHeader? {
      HistoryOpens(p.l, [], p.last, p.hist);
    }
  }

  lemma IdleCrashKeeps(p: P, p': P)
    requires Inv(p) && Next(p, PowerLoss, p')
    ensures Inv(p') && p'.l == p.l && p.l.segs != []
  {
    InvRecovers(p.d, p.l, p.boot, p.last);
    RecoversUnique(p.d, p.l, p'.l);
    HistoryForgets(p.l, p.buf, p.last, p.hist);
    assert p.hist + Gained(p.l, p.l) == p.hist;
  }

  // ---------- Whole runs ----------

  lemma StepKeeps(p: P, step: Step, p': P)
    requires Inv(p) && Next(p, step, p')
    ensures Inv(p')
  {
    match step
    case Io(op) => IoKeeps(p, op);
    case Accept(e) => AcceptKeeps(p, e);
    case PowerLoss => IdleCrashKeeps(p, p');
    case PowerLossDuring(op) => CrashKeeps(p, op, p');
    case Damage(slot, index) => IndexTorn(p.d, p.l, p.boot, p.last, slot, index);
    case PowerOn =>
  }

  /** Every state of every run satisfies the invariant, whatever crashes, restarts and index damage it contains. */
  lemma {:induction false} RunKeeps(states: seq<P>, steps: seq<Step>, i: nat)
    requires IsRun(states, steps) && i < |states| && Inv(states[0])
    ensures Inv(states[i])
  {
    if i > 0 {
      RunKeeps(states, steps, i - 1);
      StepKeeps(states[i - 1], steps[i - 1], states[i]);
    }
  }

  // ---------- The abstract log that every run refines ----------

  /** hist: every entry that ever became durable. segs: the retained entries, by generation.
      pending: accepted, not durable. */
  datatype A = A(hist: seq<Entry>, segs: seq<seq<Entry>>, pending: seq<Entry>)

  datatype AStep = Stutter | Append(e: Entry) | Sync | DropOldest | OpenNew | Crash(survivors: nat)

  function Settle(a: A, es: seq<Entry>): A
  {
    if a.segs == [] then a
    else A(a.hist + es, a.segs[..|a.segs| - 1] + [a.segs[|a.segs| - 1] + es], [])
  }

  ghost predicate ANext(a: A, s: AStep, a': A)
  {
    match s
    case Stutter => a' == a
    case Append(e) => a' == a.(pending := a.pending + [e]) && forall x :: x in a.hist + a.pending ==> x.id < e.id
    case Sync => a' == Settle(a, a.pending)
    case DropOldest => a.pending == [] && |a.segs| >= 2 && a' == a.(segs := a.segs[1..])
    case OpenNew => a.pending == [] && a' == a.(segs := a.segs + [[]])
    case Crash(m) => m <= |a.pending| && a' == Settle(a, a.pending[..m])
  }

  function Abs(p: P): A { A(p.hist, p.l.segs, p.buf) }

  lemma SettleNothing(a: A)
    requires a.segs != []
    ensures Settle(a, []) == a.(pending := [])
  {
    assert a.segs == a.segs[..|a.segs| - 1] + [a.segs[|a.segs| - 1]];
    assert a.segs[|a.segs| - 1] + [] == a.segs[|a.segs| - 1];
  }

  lemma IoRefines(p: P, op: Op) returns (s: AStep)
    requires Inv(p) && Allowed(p, op)
    ensures ANext(Abs(p), s, Abs(After(p, op))) && !s.Append?
  {
    hide Inv, Ready, HasFooter, IndexMatches, FooterOf, Sample, HeaderValid;
    match op
    case WriteSuper(copy, x) => s := if x.oldestGen == p.l.base then Stutter else DropOldest;
    case WriteHeader(slot, copy, at) => s := if copy == 0 then OpenNew else Stutter;
    case WriteData(slot, start, es) => s := Sync;
    case WriteIndex(slot, items) => s := Stutter;
    case WriteFooter(slot, copy, f) => s := Stutter;
  }

  lemma CrashRefines(p: P, op: Op, p': P) returns (s: AStep)
    requires Inv(p) && Next(p, PowerLossDuring(op), p')
    ensures ANext(Abs(p), s, Abs(p')) && !s.Append?
  {
    CrashKeeps(p, op, p');
    s := OutcomeRefines(p, op, p');
  }

  lemma OutcomeRefines(p: P, op: Op, p': P) returns (s: AStep)
    requires p.l.segs != [] && Allowed(p, op) && Outcome(p, op, p'.l)
    requires p'.buf == [] && p'.hist == p.hist + Gained(p.l, p'.l)
    ensures ANext(Abs(p), s, Abs(p')) && !s.Append?
  {
    if op.WriteData? {
      var k :| 0 <= k <= |p.buf| && p'.l == Extend(p.l, p.buf[..k]);
      GainedBy(p.l, p.buf[..k]);
      s := Crash(k);
    } else if p'.l == p.l {
      assert Gained(p.l, p.l) == [];
      SettleNothing(Abs(p));
      assert p.buf[..0] == [];
      s := Crash(0);
    } else {
      s := if op.WriteSuper? then DropOldest else OpenNew;
    }
  }

  lemma AcceptRefines(p: P, e: Entry)
    requires Inv(p) && Acceptable(p, e)
    ensures ANext(Abs(p), Append(e), Abs(p.(buf := p.buf + [e], last := e.id)))
  {
    hide StorageOk, Accepts, HasFooter;
    forall x | x in p.hist + p.buf ensures x.id < e.id {
      var i :| 0 <= i < |p.hist + p.buf| && (p.hist + p.buf)[i] == x;
    }
  }

  lemma IdleCrashRefines(p: P, p': P)
    requires Inv(p) && Next(p, PowerLoss, p')
    ensures ANext(Abs(p), Crash(0), Abs(p'))
  {
    hide Inv, Recovers;
    IdleCrashKeeps(p, p');
    assert Gained(p.l, p.l) == [];
    SettleNothing(Abs(p));
    assert p.buf[..0] == [];
  }

  lemma IdleRefines(p: P, step: Step, p': P)
    requires Next(p, step, p') && (step.Damage? || step.PowerOn?)
    ensures ANext(Abs(p), Stutter, Abs(p'))
  {
  }

  /** Every step of the store, crashes included, is a step of the abstract log: what recovery reads back is the retained
      log as it stood, minus whole oldest generations, plus some prefix of the entries that were still pending. */
  lemma StepRefines(p: P, step: Step, p': P) returns (s: AStep)
    requires Inv(p) && Next(p, step, p')
    ensures ANext(Abs(p), s, Abs(p'))
    ensures s.Append? ==> step == Accept(s.e)
  {
    hide Inv, ANext, Abs, Allowed, Restarts, Torn, Acceptable;
    match step
    case Io(op) => s := IoRefines(p, op);
    case Accept(e) =>
      AcceptRefines(p, e);
      s := Append(e);
    case PowerLoss =>
      IdleCrashRefines(p, p');
      s := Crash(0);
    case PowerLossDuring(op) => s := CrashRefines(p, op, p');
    case _ =>
      IdleRefines(p, step, p');
      s := Stutter;
  }

  ghost predicate AbstractRun(states: seq<P>, asteps: seq<AStep>)
  {
    && |states| == |asteps| + 1
    && forall i :: 0 <= i < |asteps| ==> ANext(Abs(states[i]), asteps[i], Abs(states[i + 1]))
  }

  /** Every run of the store is a run of the abstract log. */
  lemma {:induction false} RunRefines(states: seq<P>, steps: seq<Step>) returns (asteps: seq<AStep>)
    requires IsRun(states, steps) && Inv(states[0])
    ensures AbstractRun(states, asteps)
  {
    hide Inv, Next, ANext;
    if steps == [] {
      asteps := [];
    } else {
      var k := |steps| - 1;
      var before := RunRefines(states[..k + 1], steps[..k]);
      var s := StepAtRefines(states, steps, k);
      asteps := before + [s];
    }
  }

  lemma StepAtRefines(states: seq<P>, steps: seq<Step>, i: nat) returns (s: AStep)
    requires IsRun(states, steps) && i < |steps| && Inv(states[0])
    ensures ANext(Abs(states[i]), s, Abs(states[i + 1]))
  {
    RunKeeps(states, steps, i);
    s := StepRefines(states[i], steps[i], states[i + 1]);
  }

  // ---------- One step, seen from outside ----------

  /** Durable history, oldest retained generation and issued IDs only ever grow, and
      whatever becomes visible is newly issued. */
  ghost predicate Link(p: P, p': P)
  {
    && p.hist <= p'.hist
    && p.l.base <= p'.l.base
    && p.last <= p'.last
    && forall x :: x in Visible(p') ==> x in Visible(p) || p.last < x.id
  }

  lemma StepGrows(p: P, step: Step, p': P)
    requires Inv(p) && Next(p, step, p')
    ensures p.hist <= p'.hist && p.l.base <= p'.l.base && p.last <= p'.last
    ensures step.Accept? ==> p.last < step.e.id == p'.last
  {
    hide StorageOk, HistoryOk, Recovers, Torn, Apply;
    if step.PowerLossDuring? {
      CrashKeeps(p, step.op, p');
    } else if step.PowerLoss? {
      IdleCrashKeeps(p, p');
    }
  }

  lemma FlatSettle(a: A, es: seq<Entry>)
    requires a.segs != []
    ensures Flat(Settle(a, es).segs) == Flat(a.segs) + es
  {
    var segs := Settle(a, es).segs;
    assert segs[..|segs| - 1] == a.segs[..|a.segs| - 1];
  }

  lemma AStepShowsNothingOld(a: A, s: AStep, a': A)
    requires ANext(a, s, a') && a.segs != []
    ensures forall x :: x in Flat(a'.segs) + a'.pending ==> x in Flat(a.segs) + a.pending || (s.Append? && x == s.e)
  {
    match s
    case Stutter =>
    case Append(e) =>
    case Sync => FlatSettle(a, a.pending);
    case DropOldest => FlatTail(a.segs);
    case OpenNew => assert a'.segs[..|a.segs|] == a.segs;
    case Crash(m) => FlatSettle(a, a.pending[..m]);
  }

  /** Only accepting an entry makes an entry visible. */
  lemma StepShowsNothingOld(p: P, step: Step, p': P)
    requires Inv(p) && Next(p, step, p')
    ensures forall x :: x in Visible(p') ==> x in Visible(p) || step == Accept(x)
    ensures forall x :: x in Visible(p') ==> x in Visible(p) || p.last < x.id
  {
    var s := StepRefines(p, step, p');
    AStepShowsNothingOld(Abs(p), s, Abs(p'));
  }

  // ---------- Consequences over whole runs ----------

  ghost predicate Linked(states: seq<P>)
  {
    forall i {:trigger states[i]} :: 0 <= i && i + 1 < |states| ==> Link(states[i], states[i + 1])
  }

  lemma RunLinked(states: seq<P>, steps: seq<Step>)
    requires IsRun(states, steps) && Inv(states[0])
    ensures Linked(states)
  {
    forall i {:trigger states[i]} | 0 <= i && i + 1 < |states| ensures Link(states[i], states[i + 1]) {
      RunKeeps(states, steps, i);
      StepGrows(states[i], steps[i], states[i + 1]);
      StepShowsNothingOld(states[i], steps[i], states[i + 1]);
    }
  }

  lemma {:induction false} LinkedFar(states: seq<P>, i: nat, j: nat)
    requires Linked(states) && i <= j < |states|
    ensures Link(states[i], states[j])
    decreases j - i
  {
    if i < j {
      LinkedFar(states, i, j - 1);
      assert Link(states[j - 1], states[j - 1 + 1]);
    }
  }

  lemma ContiguousTail(h: seq<Entry>, recovered: seq<Entry>, old': seq<Entry>, e: Entry)
    requires EndsWith(h, recovered) && Increasing(h) && old' <= h
    requires e in old' && recovered != [] && recovered[0].id <= e.id
    ensures e in recovered
  {
    var from := |h| - |recovered|;
    var k :| 0 <= k < |old'| && old'[k] == e;
    assert h[k] == e && h[from] == h[from..][0] == recovered[0];
    assert k >= from;
    assert h[from..][k - from] == recovered[k - from] == e;
  }

  lemma InvHistory(p: P)
    requires Inv(p)
    ensures EndsWith(p.hist, Flat(p.l.segs)) && Increasing(p.hist)
  {
    var all := p.hist + p.buf;
    assert forall k :: 0 <= k < |p.hist| ==> p.hist[k] == all[k];
  }

  /** What is retained after any number of crashes, at any later point of the run: the history has only grown, and the
      retained entries are a contiguous run at its end, so they include every earlier durable entry from the oldest
      retained entry on. */
  lemma RecoveredIsContiguous(states: seq<P>, steps: seq<Step>, i: nat, j: nat)
    requires IsRun(states, steps) && i <= j < |states| && Inv(states[0])
    ensures EndsWith(states[j].hist, Flat(states[j].l.segs))
    ensures Increasing(states[j].hist) && states[i].hist <= states[j].hist
    ensures var recovered := Flat(states[j].l.segs);
      forall e :: e in states[i].hist && recovered != [] && recovered[0].id <= e.id ==> e in recovered
  {
    RunLinked(states, steps);
    LinkedFar(states, i, j);
    RunKeeps(states, steps, j);
    InvHistory(states[j]);
    var recovered := Flat(states[j].l.segs);
    forall e | e in states[i].hist && recovered != [] && recovered[0].id <= e.id ensures e in recovered {
      ContiguousTail(states[j].hist, recovered, states[i].hist, e);
    }
  }

  /** No entry ID is ever issued twice, not even one that a crash erased: IDs strictly increase over all boots. */
  lemma IdsNeverReused(states: seq<P>, steps: seq<Step>, i: nat, j: nat)
    requires IsRun(states, steps) && Inv(states[0]) && i < j < |steps| && steps[i].Accept? && steps[j].Accept?
    ensures steps[i].e.id < steps[j].e.id
  {
    RunLinked(states, steps);
    LinkedFar(states, i + 1, j);
    RunKeeps(states, steps, i);
    RunKeeps(states, steps, j);
    StepGrows(states[i], steps[i], states[i + 1]);
    StepGrows(states[j], steps[j], states[j + 1]);
  }

  /** Nothing lost comes back: whatever is visible later was visible at the earlier point, or was issued after it. An
      entry that a crash erased, that belongs to a retired generation or to an older use of the slot is therefore never
      shown again, even when its record is still intact in a data area and a new entry ends exactly where it starts. */
  lemma NoResurrection(states: seq<P>, steps: seq<Step>, i: nat, j: nat)
    requires IsRun(states, steps) && i <= j < |states| && Inv(states[0])
    ensures forall x :: x in Visible(states[j]) ==> x in Visible(states[i]) || states[i].last < x.id
  {
    RunLinked(states, steps);
    LinkedFar(states, i, j);
  }

  // ---------- Generation numbers ----------

  /** The entries that generation g labels in this log. */
  function RunOfGen(l: Log, g: nat): seq<Entry>
    requires l.base <= g < l.base + |l.segs|
  {
    l.segs[g - l.base]
  }

  predicate Holding(l: Log, g: nat) { l.base <= g < l.base + |l.segs| }

  /** Generations come and go in order, and the entries of one that stays only grow. */
  ghost predicate GenLink(l: Log, l': Log)
  {
    && l.base <= l'.base && l.base + |l.segs| <= l'.base + |l'.segs|
    && forall g: nat :: Holding(l, g) && Holding(l', g) ==> RunOfGen(l, g) <= RunOfGen(l', g)
  }

  lemma GenLinkTransitive(a: Log, b: Log, c: Log)
    requires GenLink(a, b) && GenLink(b, c)
    ensures GenLink(a, c)
  {
    forall g: nat | Holding(a, g) && Holding(c, g) ensures RunOfGen(a, g) <= RunOfGen(c, g) {
      assert Holding(b, g);
    }
  }

  lemma ExtendLinks(l: Log, es: seq<Entry>)
    requires l.segs != []
    ensures GenLink(l, Extend(l, es))
  {
    assert LastSeg(l) <= LastSeg(l) + es;
  }

  lemma RetireLinks(l: Log, slots: nat)
    requires |l.segs| >= 2
    ensures GenLink(l, Retire(l, slots))
  {
  }

  lemma OpenLinks(l: Log)
    ensures GenLink(l, Open(l)) && GenLink(l, l)
  {
  }

  lemma IoLinks(p: P, op: Op)
    requires p.l.segs != [] && Allowed(p, op)
    ensures GenLink(p.l, After(p, op).l)
  {
    OpenLinks(p.l);
    if op.WriteData? {
      ExtendLinks(p.l, p.buf);
    } else if op.WriteSuper? && op.s.oldestGen != p.l.base {
      RetireLinks(p.l, |p.d.files|);
    }
  }

  lemma StepLinksGenerations(p: P, step: Step, p': P)
    requires Inv(p) && Next(p, step, p')
    ensures GenLink(p.l, p'.l)
  {
    OpenLinks(p.l);
    assert p.l.segs != [];
    match step
    case Io(op) => IoLinks(p, op);
    case PowerLoss => IdleCrashKeeps(p, p');
    case PowerLossDuring(op) =>
      CrashKeeps(p, op, p');
      CrashLinks(p, op, p'.l);
    case Accept(_) =>
    case Damage(_, _) =>
    case PowerOn =>
  }

  lemma CrashLinks(p: P, op: Op, l': Log)
    requires p.l.segs != [] && Allowed(p, op) && Outcome(p, op, l')
    ensures GenLink(p.l, l')
  {
    if op.WriteData? {
      var k :| 0 <= k <= |p.buf| && l' == Extend(p.l, p.buf[..k]);
      ExtendLinks(p.l, p.buf[..k]);
    } else {
      OpenLinks(p.l);
      IoLinks(p, op);
    }
  }

  /** No generation number ever labels two different runs of entries: whatever happens in between, a generation that is
      still retained holds what it held before, possibly with more behind it. */
  lemma {:induction false} GenerationsNeverReused(states: seq<P>, steps: seq<Step>, i: nat, j: nat)
    requires IsRun(states, steps) && Inv(states[0]) && i <= j < |states|
    ensures GenLink(states[i].l, states[j].l)
    decreases j - i
  {
    hide Inv, GenLink, Next;
    if i == j {
      OpenLinks(states[i].l);
    } else {
      GenerationsNeverReused(states, steps, i, j - 1);
      RunKeeps(states, steps, j - 1);
      StepLinksGenerations(states[j - 1], steps[j - 1], states[j]);
      GenLinkTransitive(states[i].l, states[j - 1].l, states[j].l);
    }
  }
}
