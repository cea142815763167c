/** What a reader copies from the store's memory, what it then needs of the disk, and why a
    running writer never takes it away. */
module Snapshots {
  import opened Layout
  import opened Segment
  import opened Device
  import opened Protocol
  import opened Runs
  import opened Memory
  import opened CrashSafety

  datatype Snapshot = Snapshot(segments: seq<Desc>, active: Ident, index: seq<IndexItem>, buf: seq<Entry>,
                               bufOffset: nat)

  /** Entries of the segment of rank k as the snapshot shows them, buffered ones included. */
  function RunOf(p: P, k: nat): seq<Entry>
    requires k < |p.l.segs|
  {
    if k + 1 == |p.l.segs| then TopRun(p) else p.l.segs[k]
  }

  /** The snapshot was taken in state p, between two operations of the writer. */
  ghost predicate SnapshotOf(p: P, s: Snapshot)
  {
    && Inv(p) && p.mode == Live
    && SegmentsOk(p, s.segments, false)
    && s.active == TopIdent(p.d.store, |p.d.files|, p.l)
    && s.index == Sample(TopRun(p))
    && s.buf == p.buf
    && (p.buf != [] ==> s.bufOffset == End(LastSeg(p.l)))
  }

  lemma SnapshotTaken(p: P, r: Ram)
    requires Mirrors(p, r, false) && p.mode == Live
    ensures SnapshotOf(p, Snapshot(r.segments, r.active, r.index, r.buf, r.bufOffset))
  {
  }

  /** The disk still holds everything the snapshot of state p refers to. */
  ghost predicate Serves(d: Disk, p: P)
  {
    && SameLayout(p.d, d)
    && forall k :: 0 <= k < |p.l.segs| ==> ServesRank(d, p, k)
  }

  ghost predicate ServesRank(d: Disk, p: P, k: nat)
    requires k < |p.l.segs|
  {
    var at := IdentOf(p, k);
    && at.slot < |d.files|
    && LoadHeader(d.files[at.slot], at.store, at.slot) == Some(at.gen)
    && Chain(d.files[at.slot].cells, at, d.g.dataEnd, p.l.segs[k])
    && (k + 1 < |p.l.segs| ==>
          && LoadFooter(d.files[at.slot], at, d.g) == Some(FooterOf(at, p.l.segs[k]))
          && IndexMatches(d.files[at.slot], FooterOf(at, p.l.segs[k])))
  }

  // ---------- The writer while a reader holds the read lock ----------

  /** q is p some appends later: same generations, and the newest segment has only grown. */
  ghost predicate Overtakes(p: P, q: P)
  {
    && Inv(q) && q.mode == Live && SameLayout(p.d, q.d)
    && q.l.base == p.l.base && q.l.first == p.l.first && |q.l.segs| == |p.l.segs| >= 1
    && (forall k :: 0 <= k < |p.l.segs| - 1 ==> q.l.segs[k] == p.l.segs[k])
    && LastSeg(p.l) <= LastSeg(q.l)
  }

  lemma SealedRank(q: P, k: nat)
    requires Inv(q) && q.mode == Live && k + 1 < |q.l.segs|
    ensures var at := IdentOf(q, k);
      && at.slot < |q.d.files|
      && LoadFooter(q.d.files[at.slot], at, q.d.g) == Some(FooterOf(at, q.l.segs[k]))
      && IndexMatches(q.d.files[at.slot], FooterOf(at, q.l.segs[k]))
  {
    hide HistoryOk, PendingOk, SlotsOk, Ordered, IdsWithin, TopIssued, SuperOk;
    AtRank(q.d, q.l, q.boot, q.last, k);
    assert SegReady(q.d, q.l, k);
    FooterOfValid(IdentOf(q, k), q.l.segs[k], q.d.g);
  }

  lemma RankHolds(q: P, k: nat)
    requires Inv(q) && k < |q.l.segs|
    ensures IdentOf(q, k).slot < |q.d.files|
    ensures Holds(q.d.g, q.d.files[IdentOf(q, k).slot], IdentOf(q, k), q.l.segs[k])
  {
    AtRank(q.d, q.l, q.boot, q.last, k);
  }

  lemma ServedRank(p: P, q: P, k: nat)
    requires Overtakes(p, q) && k < |p.l.segs|
    ensures ServesRank(q.d, p, k)
  {
    hide Inv, Chain, FooterOf, IndexMatches, LoadFooter, LoadHeader, Binds;
    RankHolds(q, k);
    var at := IdentOf(p, k);
    var es := q.l.segs[k];
    assert Chain(q.d.files[at.slot].cells, at, q.d.g.dataEnd, es);
    ChainPrefix(q.d.files[at.slot].cells, at, q.d.g.dataEnd, es, |p.l.segs[k]|);
    assert es[..|p.l.segs[k]|] == p.l.segs[k];
    if k + 1 < |p.l.segs| {
      SealedRank(q, k);
    }
  }

  /** Whatever state the writer has reached meanwhile, its disk serves the snapshot. */
  lemma Served(p: P, q: P)
    requires Overtakes(p, q)
    ensures Serves(q.d, p)
  {
    forall k | 0 <= k < |p.l.segs| ensures ServesRank(q.d, p, k) {
      ServedRank(p, q, k);
    }
  }

  lemma WriterIoOvertakes(p: P, q: P, op: Op)
    requires Overtakes(p, q) && Unlocked(q, op) && Allowed(q, op) && Inv(After(q, op))
    ensures Overtakes(p, After(q, op))
  {
    hide Inv, DiskInv;
    AfterSameLayout(q, op);
  }

  lemma WriterStepOvertakes(p: P, q: P, step: Step, q': P)
    requires Overtakes(p, q) && UnlockedStep(q, step) && Next(q, step, q')
    ensures Overtakes(p, q')
  {
    hide Inv, Allowed, Acceptable, Unlocked;
    StepKeeps(q, step, q');
    if step.Io? {
      WriterIoOvertakes(p, q, step.op);
    }
  }

  /** Any number of writer steps: appends, flushes, direct writes and the seal before a rotation. */
  lemma {:induction false} WriterRunOvertakes(p: P, states: seq<P>, steps: seq<Step>, i: nat)
    requires IsRun(states, steps) && i < |states| && Overtakes(p, states[0])
    requires forall j :: 0 <= j < |steps| ==> UnlockedStep(states[j], steps[j])
    ensures Overtakes(p, states[i])
  {
    hide Overtakes, UnlockedStep, Next;
    if i > 0 {
      WriterRunOvertakes(p, states, steps, i - 1);
      WriterStepOvertakes(p, states[i - 1], steps[i - 1], states[i]);
    }
  }

  /** An unlocked write touches at most the newest slot, and there neither the headers nor,
      unless it appends, the records. */
  lemma UnlockedFootprint(q: P, op: Op, d: Disk)
    requires Inv(q) && Allowed(q, op) && Unlocked(q, op) && Torn(q.d, op, d)
    ensures SameLayout(q.d, d) && TopSlot(q.l, |q.d.files|) < |d.files|
    ensures var t := TopSlot(q.l, |q.d.files|);
      && (forall i :: 0 <= i < |d.files| && i != t ==> d.files[i] == q.d.files[i])
      && d.files[t].h0 == q.d.files[t].h0 && d.files[t].h1 == q.d.files[t].h1
      && (d.files[t].cells == q.d.files[t].cells ||
          TornCells(q.d.files[t].cells, End(LastSeg(q.l)), q.buf, d.files[t].cells))
  {
    RankSlot(q.l, |q.l.segs| - 1, |q.d.files|);
    hide Inv, TornCells;
    match op
    case WriteSuper(copy, s) => var c :| TornCopy(if copy == 0 then q.d.sb0 else q.d.sb1, s, c) &&
      d == SetSuper(q.d, copy, c);
    case WriteData(slot, start, es) =>
      var c :| TornCells(q.d.files[slot].cells, start, es, c) && d == SetFile(q.d, slot, q.d.files[slot].(cells := c));
    case WriteIndex(slot, items) => var c :| d == SetFile(q.d, slot, q.d.files[slot].(index := c));
    case WriteFooter(slot, copy, f) =>
      var c :| TornCopy(if copy == 0 then q.d.files[slot].f0 else q.d.files[slot].f1, f, c) &&
               d == SetFile(q.d, slot, SetFooter(q.d.files[slot], copy, c));
    case WriteHeader(_, _, _) => assert false;
  }

  lemma RankDuringWrite(p: P, q: P, op: Op, d: Disk, k: nat)
    requires Overtakes(p, q) && Allowed(q, op) && Unlocked(q, op) && Torn(q.d, op, d) && k < |p.l.segs|
    ensures ServesRank(d, p, k)
  {
    hide Inv, Allowed, Torn, TornCells, Chain, FooterOf, IndexMatches, LoadFooter;
    InvShape(q);
    UnlockedFootprint(q, op, d);
    ServedRank(p, q, k);
    RankSlot(q.l, k, |q.d.files|);
    RankSlot(q.l, |p.l.segs| - 1, |q.d.files|);
    if k + 1 == |p.l.segs| && d.files[TopSlot(q.l, |q.d.files|)].cells != q.d.files[TopSlot(q.l, |q.d.files|)].cells {
      GrownRunServes(p, q, d.files[TopSlot(q.l, |q.d.files|)].cells);
    }
  }

  /** A read that hits the disk in the middle of a write still sees what the snapshot needs: those writes put bytes only
      into the superblocks, or behind the synced entries, into the index or into the footers of the newest segment. */
  lemma ServedDuringWrite(p: P, q: P, op: Op, d: Disk)
    requires Overtakes(p, q) && Allowed(q, op) && Unlocked(q, op) && Torn(q.d, op, d)
    ensures Serves(d, p)
  {
    UnlockedFootprint(q, op, d);
    forall k | 0 <= k < |p.l.segs| ensures ServesRank(d, p, k) {
      RankDuringWrite(p, q, op, d, k);
    }
  }

  lemma GrownRunServes(p: P, q: P, cells: Cells)
    requires Overtakes(p, q)
    requires TornCells(q.d.files[TopSlot(q.l, |q.d.files|)].cells, End(LastSeg(q.l)), q.buf, cells)
    ensures Chain(cells, TopIdent(q.d.store, |q.d.files|, q.l), q.d.g.dataEnd, LastSeg(p.l))
  {
    TopHolds(q.d, q.l, q.boot, q.last);
    var at := TopIdent(q.d.store, |q.d.files|, q.l);
    ChainSurvives(q.d.files[at.slot].cells, at, q.d.g.dataEnd, LastSeg(q.l), q.buf, cells);
    ChainPrefix(cells, at, q.d.g.dataEnd, LastSeg(q.l), |LastSeg(p.l)|);
    assert LastSeg(q.l)[..|LastSeg(p.l)|] == LastSeg(p.l);
  }

  /** The disks a reader may meet: that of any state of the writer's run, or one torn out of
      the middle of its next write. */
  ghost predicate MayMeet(states: seq<P>, steps: seq<Step>, d: Disk)
    requires |states| == |steps| + 1
  {
    || (exists i :: 0 <= i < |states| && d == states[i].d)
    || (exists i ::
          0 <= i < |steps| && steps[i].Io? && Allowed(states[i], steps[i].op) && Torn(states[i].d, steps[i].op, d))
  }

  /** Reader isolation: from the snapshot on, as long as only unlocked writer steps happen, every disk
      the reader can meet serves the snapshot. */
  lemma Isolation(p: P, states: seq<P>, steps: seq<Step>, d: Disk)
    requires Inv(p) && p.mode == Live && IsRun(states, steps) && states[0] == p
    requires forall j :: 0 <= j < |steps| ==> UnlockedStep(states[j], steps[j])
    requires MayMeet(states, steps, d)
    ensures Serves(d, p)
  {
    if i :| 0 <= i < |states| && d == states[i].d {
      WriterRunOvertakes(p, states, steps, i);
      Served(p, states[i]);
    } else {
      var i :| 0 <= i < |steps| && steps[i].Io? && Allowed(states[i], steps[i].op) && Torn(states[i].d, steps[i].op, d);
      WriterRunOvertakes(p, states, steps, i);
      ServedDuringWrite(p, states[i], steps[i].op, d);
    }
  }
}
