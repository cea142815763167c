/** Looking entries up in a snapshot while the writer goes on: segment selection, sparse index, validated scan. */
module Reader {
  import opened Layout
  import opened Segment
  import opened Device
  import opened Protocol
  import opened Runs
  import opened Memory
  import opened Snapshots
  import opened Lookup
  import opened ReadFacts
  import opened Searches
  import opened Engine

  /** The disk as each device access finds it: the writer may change it between any two of them. */
  type Accesses = nat -> Disk

  // ---------- What a snapshot and the disks behind it give the reader ----------

  predicate SnapshotIndexed(s: Snapshot, at: Ident, run: seq<Entry>)
  {
    s.active == at && s.index == Sample(run)
  }

  ghost predicate SealedOn(d: Disk, g: Geometry, at: Ident, run: seq<Entry>)
    requires at.slot < |d.files|
  {
    LoadFooter(d.files[at.slot], at, g) == Some(FooterOf(at, run)) && IndexMatches(d.files[at.slot], FooterOf(at, run))
  }

  /** Segment `at` can be read as `run` at every access. */
  ghost predicate Readable(s: Snapshot, disks: Accesses, g: Geometry, at: Ident, run: seq<Entry>, sealed: bool)
  {
    && GeometryOk(g) && Increasing(run) && TimelyRun(run) && End(run) <= g.dataEnd
    && (forall i :: 0 <= i < |run| ==> Accepts(run[i], at))
    && (forall t: nat ::
          at.slot < |disks(t).files| && LoadHeader(disks(t).files[at.slot], at.store, at.slot) == Some(at.gen))
    && (if sealed then forall t: nat :: SealedOn(disks(t), g, at, run) else SnapshotIndexed(s, at, run))
    && forall t: nat, i {:trigger CellAt(s, at, disks(t), Off(run, i))} ::
         0 <= i < |run| ==> CellAt(s, at, disks(t), Off(run, i)) == Some(run[i])
  }

  lemma RankServed(p: P, s: Snapshot, d: Disk, k: nat)
    requires SnapshotOf(p, s) && k < |p.l.segs| && Serves(d, p)
    ensures var at := IdentOf(p, k);
      at.slot < |d.files| && LoadHeader(d.files[at.slot], at.store, at.slot) == Some(at.gen)
    ensures k + 1 < |p.l.segs| ==> SealedOn(d, p.d.g, IdentOf(p, k), RunOf(p, k))
    ensures forall i :: 0 <= i < |RunOf(p, k)| ==>
            CellAt(s, IdentOf(p, k), d, Off(RunOf(p, k), i)) == Some(RunOf(p, k)[i])
  {
    assert ServesRank(d, p, k);
    hide SnapshotOf;
    forall i | 0 <= i < |RunOf(p, k)| ensures CellAt(s, IdentOf(p, k), d, Off(RunOf(p, k), i)) == Some(RunOf(p, k)[i]) {
      CellServed(p, s, d, k, i);
    }
  }

  /** While only unlocked writer steps happen (see Isolation), every segment of the snapshot can be read. */
  lemma SegmentReadable(p: P, s: Snapshot, disks: Accesses, k: nat)
    requires SnapshotOf(p, s) && k < |p.l.segs| && forall t: nat :: Serves(disks(t), p)
    ensures Readable(s, disks, p.d.g, IdentOf(p, k), RunOf(p, k), k + 1 < |p.l.segs|)
  {
    RunsOk(p, k);
    RunsTimely(p, k);
    assert k + 1 == |p.l.segs| ==> SnapshotIndexed(s, IdentOf(p, k), RunOf(p, k));
    hide Inv, SnapshotOf, Serves, SealedOn, CellAt, Off, TimelyRun, Increasing, SnapshotIndexed;
    forall t: nat {
      RankServed(p, s, disks(t), k);
    }
  }

  lemma RunInOrder(s: Snapshot, disks: Accesses, g: Geometry, at: Ident, run: seq<Entry>, sealed: bool)
    requires Readable(s, disks, g, at, run, sealed)
    ensures Increasing(run) && TimelyRun(run)
  {
  }

  lemma RecordThere(s: Snapshot, disks: Accesses, g: Geometry, at: Ident, run: seq<Entry>, sealed: bool, t: nat, i: nat)
    requires Readable(s, disks, g, at, run, sealed) && i < |run|
    ensures CellAt(s, at, disks(t), Off(run, i)) == Some(run[i]) && Accepts(run[i], at)
    ensures DATA_START <= Off(run, i) && Off(run, i) + Size(run[i]) <= End(run) <= g.dataEnd
  {
    OffStep(run, i);
    OffMonotone(run, i + 1, |run|);
  }

  lemma ShownRuns(p: P, s: Snapshot)
    requires SnapshotOf(p, s)
    ensures Sorted(View(p)) && Flat(View(p)) == Visible(p) && |View(p)| == |p.l.segs|
    ensures forall k :: 0 <= k < |p.l.segs| ==> View(p)[k] == RunOf(p, k)
  {
    InvShape(p);
    ViewSorted(p);
    ViewRuns(p);
  }

  // ---------- Choosing the segment ----------

  predicate Candidate(d: Desc, first: nat, last: nat, exact: bool)
  {
    && d.valid && d.count != 0 && d.last >= first && d.first <= last
    && (exact ==> d.first <= first <= d.last)
  }

  /** r is the candidate of least generation among the first `count` slots. */
  ghost predicate LowestCandidate(segments: seq<Desc>, count: nat, first: nat, last: nat, exact: bool, r: Option<Desc>)
    requires count <= |segments|
  {
    match r
    case None => forall i :: 0 <= i < count ==> !Candidate(segments[i], first, last, exact)
    case Some(d) =>
      && (exists i :: 0 <= i < count && segments[i] == d && Candidate(d, first, last, exact))
      && forall i :: 0 <= i < count && Candidate(segments[i], first, last, exact) ==> d.gen <= segments[i].gen
  }

  function DescOfRun(p: P, k: nat): Desc
    requires k < |p.l.segs|
  {
    DescOf(IdentOf(p, k), RunOf(p, k), k + 1 < |p.l.segs|, IndexCount(|RunOf(p, k)|))
  }

  /** The descriptor the snapshot has for rank k. */
  lemma DescOfRank(p: P, s: Snapshot, k: nat)
    requires SnapshotOf(p, s) && k < |p.l.segs|
    ensures IdentOf(p, k).slot < |s.segments| && s.segments[IdentOf(p, k).slot] == DescOfRun(p, k)
  {
    RankSlot(p.l, k, |p.d.files|);
    assert s.segments[IdentOf(p, k).slot] == DescAt(p, IdentOf(p, k).slot, false);
  }

  lemma CandidateIff(p: P, k: nat, first: nat, last: nat, exact: bool)
    requires k < |p.l.segs| && (exact ==> first == last)
    ensures Candidate(DescOfRun(p, k), first, last, exact) <==> Overlaps(RunOf(p, k), first, last, exact)
  {
  }

  lemma CandidateRank(p: P, s: Snapshot, i: nat) returns (k: nat)
    requires SnapshotOf(p, s) && i < |s.segments| && s.segments[i].valid
    ensures k < |p.l.segs| && s.segments[i] == DescOfRun(p, k)
  {
    assert s.segments[i] == DescAt(p, i, false);
    k := RankOf(p.l.first, i, |p.d.files|);
    SlotRank(p.l, i, |p.d.files|);
  }

  /** The candidate of least generation is the oldest segment that overlaps the range. */
  lemma LowestIsFirstOverlap(p: P, s: Snapshot, first: nat, last: nat, exact: bool, d: Desc) returns (k: nat)
    requires SnapshotOf(p, s) && (exact ==> first == last)
    requires LowestCandidate(s.segments, |s.segments|, first, last, exact, Some(d))
    ensures k < |p.l.segs| && d == DescOfRun(p, k) && Overlaps(RunOf(p, k), first, last, exact)
    ensures forall j :: 0 <= j < k ==> !Overlaps(RunOf(p, j), first, last, exact)
  {
    var i :| 0 <= i < |s.segments| && s.segments[i] == d && Candidate(d, first, last, exact);
    k := CandidateRank(p, s, i);
    hide SnapshotOf, RunOf, Overlaps;
    CandidateIff(p, k, first, last, exact);
    forall j | 0 <= j < k ensures !Overlaps(RunOf(p, j), first, last, exact) {
      DescOfRank(p, s, j);
      CandidateIff(p, j, first, last, exact);
    }
  }

  lemma CandidateMeets(segments: seq<Desc>, first: nat, last: nat, d: Desc)
    requires LowestCandidate(segments, |segments|, first, last, false, Some(d))
    ensures first <= d.last
  {
  }

  lemma NoneOverlaps(p: P, s: Snapshot, first: nat, last: nat, exact: bool)
    requires SnapshotOf(p, s) && (exact ==> first == last)
    requires LowestCandidate(s.segments, |s.segments|, first, last, exact, None)
    ensures forall k :: 0 <= k < |p.l.segs| ==> !Overlaps(RunOf(p, k), first, last, exact)
  {
    hide SnapshotOf, RunOf, Overlaps;
    forall k | 0 <= k < |p.l.segs| ensures !Overlaps(RunOf(p, k), first, last, exact) {
      DescOfRank(p, s, k);
      CandidateIff(p, k, first, last, exact);
    }
  }

  // ---------- A stretch of a store's run ----------

  function StatesSince(since: Trace, later: Trace): (r: seq<P>)
    ensures |r| == |StepsSince(since, later)| + 1
  {
    if later == since || later.Start? then [later.p] else StatesSince(since, later.before) + [later.p]
  }

  function StepsSince(since: Trace, later: Trace): seq<Step>
  {
    if later == since || later.Start? then [] else StepsSince(since, later.before) + [later.step]
  }

  lemma {:induction false} UnlockedRun(since: Trace, later: Trace)
    requires Legal(later) && UnlockedSince(since, later)
    ensures IsRun(StatesSince(since, later), StepsSince(since, later))
    ensures var states, steps := StatesSince(since, later), StepsSince(since, later);
      && states[0] == since.p && states[|steps|] == later.p
      && forall j :: 0 <= j < |steps| ==> UnlockedStep(states[j], steps[j])
  {
    hide Next, Inv, UnlockedStep;
    if later != since {
      UnlockedRun(since, later.before);
      var states, steps := StatesSince(since, later), StepsSince(since, later);
      var states', steps' := StatesSince(since, later.before), StepsSince(since, later.before);
      forall j | 0 <= j < |steps|
        ensures Next(states[j], steps[j], states[j + 1]) && UnlockedStep(states[j], steps[j])
      {
        if j < |steps'| {
          assert Next(states'[j], steps'[j], states'[j + 1]) && UnlockedStep(states'[j], steps'[j]);
        }
      }
    }
  }

  // ---------- The reader ----------

  class SnapshotReader {
    const store: nat
    const g: Geometry
    const disks: Accesses
    var clock: nat
    var snap: Snapshot
    var index: seq<IndexItem>

    /** A reader of this store whose successive accesses to the device meet these disks. */
    constructor (store: nat, g: Geometry, disks: Accesses)
      ensures this.store == store && this.g == g && this.disks == disks
    {
      this.store, this.g, this.disks := store, g, disks;
      clock, index := 0, [];
      snap := Snapshot([], Ident(0, 0, 0), [], [], 0);
    }

    ghost predicate Sees(at: Ident, run: seq<Entry>, sealed: bool)
      reads this`snap
    {
      at.store == store && Readable(snap, disks, g, at, run, sealed)
    }

    /** This reader reads the store in state p, and no access of it will find anything gone
        that a snapshot of p refers to. */
    ghost predicate Faces(p: P)
    {
      p.d.store == store && p.d.g == g && forall t: nat :: Serves(disks(t), p)
    }

    /** The store was in state p when the snapshot was taken, and no access finds what it needs gone. */
    ghost predicate Undisturbed(p: P)
      reads this`snap
    {
      SnapshotOf(p, snap) && Faces(p)
    }

    lemma FacesSnapshot(p: P)
      requires SnapshotOf(p, snap) && Faces(p)
      ensures Undisturbed(p)
    {
    }

    /** Reader isolation: while the writer only takes steps that need no read lock, the reader is undisturbed, even by
        disks caught in the middle of a write. */
    lemma WriterDoesNotDisturb(p: P, states: seq<P>, steps: seq<Step>)
      requires SnapshotOf(p, snap) && p.d.store == store && p.d.g == g
      requires IsRun(states, steps) && states[0] == p && forall j :: 0 <= j < |steps| ==>
               UnlockedStep(states[j], steps[j])
      requires forall t: nat :: MayMeet(states, steps, disks(t))
      ensures Undisturbed(p)
    {
      hide IsRun, UnlockedStep, MayMeet, Serves, Inv, SegmentsOk;
      forall t: nat ensures Serves(disks(t), p) {
        Isolation(p, states, steps, disks(t));
      }
    }

    /** Every access meets a disk of this stretch of a store's run, perhaps in the middle of a write. */
    ghost predicate MeetsOnly(since: Trace, later: Trace)
    {
      forall t: nat :: MayMeet(StatesSince(since, later), StepsSince(since, later), disks(t))
    }

    /** The same for a store object: whatever its methods did since the snapshot, as long as no step of theirs needed
        the read lock, a reader that meets only disks of that stretch of its run is undisturbed. */
    lemma StoreDoesNotDisturb(since: Trace, later: Trace)
      requires SnapshotOf(since.p, snap) && since.p.d.store == store && since.p.d.g == g
      requires Legal(later) && UnlockedSince(since, later)
      requires MeetsOnly(since, later)
      ensures Undisturbed(since.p)
    {
      hide SnapshotOf, MayMeet, IsRun, UnlockedStep, Serves, Legal, Inv;
      UnlockedRun(since, later);
      WriterDoesNotDisturb(since.p, StatesSince(since, later), StepsSince(since, later));
    }

    lemma UndisturbedLive(p: P)
      requires Undisturbed(p)
      ensures Inv(p) && p.mode == Live && p.l.segs != []
    {
      InvShape(p);
    }

    lemma SeesAll(p: P, k: nat)
      requires Undisturbed(p) && k < |p.l.segs|
      ensures Sees(IdentOf(p, k), RunOf(p, k), k + 1 < |p.l.segs|)
    {
      SegmentReadable(p, snap, disks, k);
    }

    lemma NoCandidateAnswers(p: P, first: nat, last: nat, exact: bool, room: nat)
      requires Undisturbed(p) && (exact ==> first == last)
      requires LowestCandidate(snap.segments, |snap.segments|, first, last, exact, None)
      ensures Answers(Visible(p), InRange(first, last), room, NotFound)
    {
      hide Serves, LowestCandidate;
      ShownRuns(p, snap);
      NoneOverlaps(p, snap, first, last, exact);
      hide SnapshotOf, View, RunOf, Visible, Overlaps, Sorted;
      NoOverlapNoMatch(View(p), first, last, exact);
    }

    lemma SelectedRun(p: P, first: nat, last: nat, exact: bool, d: Desc) returns (k: nat, run: seq<Entry>)
      requires Undisturbed(p) && (exact ==> first == last)
      requires LowestCandidate(snap.segments, |snap.segments|, first, last, exact, Some(d))
      ensures k < |p.l.segs| && run == RunOf(p, k) && Overlaps(run, first, last, exact) && run != []
      ensures d == DescOf(Ident(store, d.slot, d.gen), run, d.sealed, IndexCount(|run|))
      ensures Sees(Ident(store, d.slot, d.gen), run, d.sealed)
      ensures forall j :: 0 <= j < k ==> !Overlaps(RunOf(p, j), first, last, exact)
    {
      hide Serves, LowestCandidate, RunOf, SnapshotOf;
      k := LowestIsFirstOverlap(p, snap, first, last, exact, d);
      run := RunOf(p, k);
      SeesAll(p, k);
    }

    lemma SelectedAnswers(p: P, k: nat, first: nat, last: nat, exact: bool, room: nat, r: Read)
      requires Undisturbed(p) && (exact ==> first == last) && k < |p.l.segs|
      requires Overlaps(RunOf(p, k), first, last, exact)
      requires forall j :: 0 <= j < k ==> !Overlaps(RunOf(p, j), first, last, exact)
      requires Answers(RunOf(p, k), InRange(first, last), room, r)
      ensures Answers(Visible(p), InRange(first, last), room, r)
    {
      hide Serves;
      ShownRuns(p, snap);
      hide SnapshotOf, View, RunOf, Visible, Overlaps, Sorted, Answers;
      FirstOverlapDecides(View(p), k, first, last, exact, room, r);
    }

    lemma NoneLeftIsExact(p: P, boot: nat, lo: nat, hi: nat, first0: nat, first: nat, byUptime: bool, room: nat)
      requires Undisturbed(p) && Pending(View(p), boot, lo, hi, first0, first, byUptime)
      requires LowestCandidate(snap.segments, |snap.segments|, first, BootLast(boot), false, None)
      ensures Exact(View(p), boot, lo, hi, first0, byUptime, room, NotFound)
    {
      hide Serves, LowestCandidate, Pending, Exact;
      ShownRuns(p, snap);
      NoneOverlaps(p, snap, first, BootLast(boot), false);
      hide SnapshotOf, View, RunOf, Visible, Overlaps, Sorted;
      PendingDone(View(p), boot, lo, hi, first0, first, byUptime, room);
    }

    lemma SelectedBootRun(p: P, first: nat, last: nat, d: Desc) returns (k: nat, run: seq<Entry>)
      requires Undisturbed(p) && LowestCandidate(snap.segments, |snap.segments|, first, last, false, Some(d))
      ensures k < |p.l.segs| && run == RunOf(p, k) && run != [] && d.last == LastId(run) &&
              Selected(View(p), k, first, last)
      ensures d == DescOf(Ident(store, d.slot, d.gen), run, d.sealed, IndexCount(|run|))
      ensures Sees(Ident(store, d.slot, d.gen), run, d.sealed)
    {
      hide Serves, LowestCandidate;
      ShownRuns(p, snap);
      hide SnapshotOf, View, RunOf, Visible, Sorted, Overlaps;
      k, run := SelectedRun(p, first, last, false, d);
    }

    lemma OutcomeIsExact(p: P, k: nat, boot: nat, lo: nat, hi: nat, first0: nat, first: nat, byUptime: bool, room: nat,
                         r: Read)
      requires Undisturbed(p) && Pending(View(p), boot, lo, hi, first0, first, byUptime) && k < |p.l.segs|
      requires Selected(View(p), k, first, BootLast(boot))
      requires Partial(RunOf(p, k), InBoot(boot, lo, hi, first), room, r,
                       byUptime && Skips(RunOf(p, k), boot, lo, hi, first))
      ensures r != NotFound ==> Exact(View(p), boot, lo, hi, first0, byUptime, room, r)
      ensures r == NotFound ==> Pending(View(p), boot, lo, hi, first0, LastId(RunOf(p, k)) + 1, byUptime)
      ensures r == NotFound && LastId(RunOf(p, k)) >= BootLast(boot) ==>
              Exact(View(p), boot, lo, hi, first0, byUptime, room, r)
    {
      hide Serves, Pending, Exact, Skips, SnapshotOf, View, RunOf, Visible, Overlaps;
      ShownRuns(p, snap);
      PartialExact(View(p)[k], InBoot(boot, lo, hi, first), room, r,
                   byUptime && Skips(View(p)[k], boot, lo, hi, first));
      hide Partial, Sorted, Selected;
      if r == NotFound {
        PendingMiss(View(p), k, boot, lo, hi, first0, first, byUptime, room);
        if LastId(RunOf(p, k)) >= BootLast(boot) {
          PendingDone(View(p), boot, lo, hi, first0, LastId(RunOf(p, k)) + 1, byUptime, room);
        }
      } else {
        PendingHit(View(p), k, boot, lo, hi, first0, first, byUptime, room, r);
      }
    }

    method Access() returns (d: Disk)
      modifies this`clock
      ensures d == disks(old(clock)) && clock == old(clock) + 1
    {
      d := disks(clock);
      clock := clock + 1;
    }

    method TakeSnapshot(source: Store)
      requires source.Valid()
      modifies this`snap, this`index
      ensures SnapshotOf(source.p, snap)
    {
      hide Inv, Legal;
      SnapshotTaken(source.p, source.Memory());
      snap := Snapshot(source.segments, source.active, source.sparseIndex, source.writeBuf, source.writeBufOffset);
      index := [];
    }

    method FindReadSegment(first: nat, last: nat, exact: bool) returns (r: Option<Desc>)
      ensures LowestCandidate(snap.segments, |snap.segments|, first, last, exact, r)
    {
      r := None;
      for slot := 0 to |snap.segments|
        invariant LowestCandidate(snap.segments, slot, first, last, exact, r)
      {
        var candidate := snap.segments[slot];
        if !candidate.valid || candidate.count == 0 || candidate.last < first || candidate.first > last {
          continue;
        }
        if exact && (first < candidate.first || first > candidate.last) {
          continue;
        }
        if r == None || candidate.gen < r.value.gen {
          r := Some(candidate);
        }
      }
    }

    method LoadReadSparseIndex(d: Desc, at: Ident, ghost run: seq<Entry>) returns (ok: bool)
      modifies this`clock, this`index
      ensures Sees(at, run, d.sealed) && d == DescOf(at, run, d.sealed, IndexCount(|run|)) ==>
              ok && index == Sample(run)
    {
      ok := false;
      if !d.sealed {
        if d.slot != snap.active.slot || d.gen != snap.active.gen || d.indexCount != |snap.index| {
          return;
        }
        index := snap.index;
        ok := true;
        return;
      }
      var onDisk := Access();
      if at.slot >= |onDisk.files| {
        return;
      }
      var footer := LoadFooter(onDisk.files[at.slot], at, g);
      if footer == None {
        return;
      }
      var f := footer.value;
      if f.first != d.first || f.last != d.last || f.count != d.count || f.dataEnd != d.dataEnd ||
        f.indexCount != d.indexCount {
        return;
      }
      onDisk := Access();
      if at.slot >= |onDisk.files| || !IndexMatches(onDisk.files[at.slot], f) || f.indexCount > g.indexCapacity {
        return;
      }
      onDisk := Access();
      if at.slot >= |onDisk.files| || f.indexCount > |onDisk.files[at.slot].index| {
        return;
      }
      index := onDisk.files[at.slot].index[..f.indexCount];
      ok := true;
    }

    method IsReadSparseIndexValid(d: Desc) returns (ok: bool)
      ensures ok <==> IndexConsistent(d, index)
    {
      if d.count == 0 {
        return index == [];
      }
      if (d.count - 1) / STRIDE + 1 != d.indexCount || d.indexCount != |index| || index == [] {
        return false;
      }
      for m := 0 to |index|
        invariant forall j :: 0 <= j < m ==> ItemOk(d, d.dataEnd, index[j])
        invariant forall j :: 0 < j < m ==> ItemsOrdered(index[j - 1], index[j])
      {
        var item := index[m];
        if item.reserved != 0 || item.id < d.first || item.id > d.last || item.offset < DATA_START ||
           item.offset >= d.dataEnd || item.offset % 4 != 0
        {
          assert !ItemOk(d, d.dataEnd, index[m]);
          return false;
        }
        if m > 0 {
          var previous := index[m - 1];
          if item.id <= previous.id || item.offset <= previous.offset ||
             (Boot(item.id) == Boot(previous.id) && item.uptime < previous.uptime)
          {
            assert !ItemsOrdered(index[m - 1], index[m]);
            return false;
          }
        }
      }
      ok := index[0].id == d.first && index[0].offset == DATA_START;
    }

    /** Checks that the slot still holds this generation, and loads and checks the segment's index. */
    method PrepareReadSegment(d: Desc, ghost run: seq<Entry>) returns (r: Option<Ident>)
      modifies this`clock, this`index
      ensures r.Some? ==> r.value == Ident(store, d.slot, d.gen) && IndexConsistent(d, index)
      ensures Sees(Ident(store, d.slot, d.gen), run, d.sealed) ==>
                d == DescOf(Ident(store, d.slot, d.gen), run, d.sealed, IndexCount(|run|)) ==>
                  r.Some? && index == Sample(run)
    {
      var at := Ident(store, d.slot, d.gen);
      r := None;
      var onDisk := Access();
      if d.slot >= |onDisk.files| {
        return;
      }
      if LoadHeader(onDisk.files[d.slot], store, d.slot) != Some(d.gen) {
        return;
      }
      var loaded := LoadReadSparseIndex(d, at, run);
      if !loaded {
        return;
      }
      var consistent := IsReadSparseIndexValid(d);
      if !consistent {
        assert Sees(at, run, d.sealed) && d == DescOf(at, run, d.sealed, IndexCount(|run|)) ==>
               IndexConsistent(d, index) by {
          if Sees(at, run, d.sealed) {
            SampleConsistent(at, run, d.sealed);
          }
        }
        return;
      }
      r := Some(at);
    }

    // ---------- Where the scan starts ----------

    /** Binary search for the last index item whose ID is not past `id`. */
    method FindReadStart(id: nat) returns (offset: nat, start: Option<IndexItem>, ghost m: nat)
      requires IdsSorted(index)
      ensures index == [] ==> offset == DATA_START && start == None
      ensures index != [] ==>
              start.Some? && offset == start.value.offset && (start.value.id <= id || start.value == index[0])
      ensures forall item :: item in index && item.id <= id ==> start.Some? && item.id <= start.value.id
      ensures index != [] ==> StartsAt(index, id, m)
      ensures index != [] ==> start == Some(index[m])
    {
      var low, high := 0, |index|;
      while low < high
        invariant 0 <= low <= high <= |index|
        invariant forall j :: 0 <= j < low ==> index[j].id <= id
        invariant forall j :: high <= j < |index| ==> id < index[j].id
      {
        var middle := low + (high - low) / 2;
        if index[middle].id <= id {
          low := middle + 1;
        } else {
          high := middle;
        }
      }
      var selected := if low == 0 then 0 else low - 1;
      m := selected;
      if index == [] {
        return DATA_START, None, m;
      }
      return index[selected].offset, Some(index[selected]), m;
    }

    /** Binary search for the last index item not past an uptime of a boot. */
    method FindBootReadStart(boot: nat, uptime: nat) returns (offset: nat, start: Option<IndexItem>, ghost m: nat)
      requires forall a, b :: 0 <= a < b < |index| ==> ItemsOrdered(index[a], index[b])
      ensures index == [] ==> offset == DATA_START && start == None
      ensures index != [] ==>
                start.Some? && offset == start.value.offset &&
                  (NotPast(start.value, boot, uptime) || start.value == index[0])
      ensures forall item :: item in index && NotPast(item, boot, uptime) ==> start.Some? && item.id <= start.value.id
      ensures index != [] ==> BootStartsAt(index, boot, uptime, m)
      ensures index != [] ==> start == Some(index[m])
    {
      var low, high := 0, |index|;
      while low < high
        invariant 0 <= low <= high <= |index|
        invariant forall j :: 0 <= j < low ==> NotPast(index[j], boot, uptime)
        invariant forall j :: high <= j < |index| ==> !NotPast(index[j], boot, uptime)
      {
        var middle := low + (high - low) / 2;
        if NotPast(index[middle], boot, uptime) {
          forall j | 0 <= j < middle ensures NotPast(index[j], boot, uptime) {
            NotPastDown(index[j], index[middle], boot, uptime);
          }
          low := middle + 1;
        } else {
          forall j | middle < j < |index| ensures !NotPast(index[j], boot, uptime) {
            if NotPast(index[j], boot, uptime) {
              NotPastDown(index[middle], index[j], boot, uptime);
            }
          }
          high := middle;
        }
      }
      var selected := if low == 0 then 0 else low - 1;
      m := selected;
      if index == [] {
        return DATA_START, None, m;
      }
      return index[selected].offset, Some(index[selected]), m;
    }

    // ---------- Scanning ----------

    /** Reads and checks one record: its header, then its payload in chunks, then its checksum. Each of these accesses
        may meet another disk; the checksum matches only if all of them find the record whose header was read first. */
    method ReadRecord(at: Ident, limit: nat, offset: nat, ghost run: seq<Entry>, ghost sealed: bool, ghost i: nat)
      returns (r: Option<Entry>)
      modifies this`clock
      ensures r.Some? ==> Accepts(r.value, at) && offset + Size(r.value) <= limit
      ensures Sees(at, run, sealed) && i < |run| && offset == Off(run, i) && limit == End(run) ==> r == Some(run[i])
    {
      hide Readable, CellAt;
      ghost var sees := Sees(at, run, sealed) && i < |run| && offset == Off(run, i) && limit == End(run);
      if sees {
        RecordThere(snap, disks, g, at, run, sealed, clock, i);
        forall t: nat ensures CellAt(snap, at, disks(t), offset) == Some(run[i]) {
          RecordThere(snap, disks, g, at, run, sealed, t, i);
        }
      }
      r := None;
      if limit < DATA_START || limit > g.dataEnd || offset < DATA_START || offset > limit ||
        limit - offset < MIN_ENTRY {
        return;
      }
      var onDisk := Access();
      var header := CellAt(snap, at, onDisk, offset);
      if header == None || !Accepts(header.value, at) || Size(header.value) > limit - offset {
        return;
      }
      var intact := true;
      var remaining := |header.value.payload|;
      while remaining > 0
        invariant sees ==> intact
      {
        onDisk := Access();
        if CellAt(snap, at, onDisk, offset) != header {
          intact := false;
        }
        remaining := if remaining < CHUNK then 0 else remaining - CHUNK;
      }
      onDisk := Access();
      if CellAt(snap, at, onDisk, offset) != header || !intact {
        return;
      }
      r := header;
    }

    /** Searches the index for the start of an ID range. */
    method FindRangeStart(first: nat, last: nat, ghost run: seq<Entry>)
      returns (offset: nat, start: Option<IndexItem>, ghost from: nat)
      requires IdsSorted(index)
      ensures Increasing(run) && index == Sample(run) && run != [] ==>
        && from <= |run| && Standing(run, from, InRange(first, last), from, offset, start, None)
        && NoneIn(run[..from], InRange(first, last))
    {
      hide Standing, StartsAt, Increasing, NoneIn, Sample;
      ghost var m;
      offset, start, m := FindReadStart(first);
      from := STRIDE * m;
      if Increasing(run) && index == Sample(run) && run != [] {
        StandAtStart(run, m, InRange(first, last));
        StartMissesNothing(run, m, InRange(first, last), first);
      }
    }

    method ReadMatchingEntry(d: Desc, at: Ident, first: nat, last: nat, exact: bool, room: nat,
                             ghost run: seq<Entry>, ghost sealed: bool)
      returns (r: Read)
      requires IdsSorted(index) && (exact ==> first == last)
      modifies this`clock
      ensures Hit(r).Some? ==> InRange(first, last)(Hit(r).value) && Accepts(Hit(r).value, at)
      ensures Sees(at, run, sealed) && d.dataEnd == End(run) && index == Sample(run) && run != [] ==>
              Answers(run, InRange(first, last), room, r)
    {
      hide Readable, Answers, Standing, StartsAt, Increasing, TimelyRun, NoneIn, Off, End, Accepts, Sample, Deliver,
           Misplaced, OutOfOrder, Boot, Size, AlignEntry, Span;
      ghost var want := InRange(first, last);
      ghost var sees := Sees(at, run, sealed) && d.dataEnd == End(run) && index == Sample(run) && run != [];
      var offset, start;
      ghost var from;
      offset, start, from := FindRangeStart(first, last, run);
      ghost var i := from;
      var previous: Option<Entry> := None;
      if sees {
        RunInOrder(snap, disks, g, at, run, sealed);
      }
      while offset < d.dataEnd
        invariant sees ==> Standing(run, from, want, i, offset, start, previous)
        decreases d.dataEnd - offset
      {
        if sees {
          StandHere(run, from, want, i, offset, start, previous);
        }
        var record := ReadRecord(at, d.dataEnd, offset, run, sealed, i);
        if record == None {
          return Failed;
        }
        var e := record.value;
        var matches := if exact then e.id == first else first <= e.id <= last;
        if Misplaced(start, previous, e, offset) || (previous.Some? && e.id <= previous.value.id) {
          if previous.Some? && e.id <= previous.value.id {
            IdsOutOfOrder(previous.value, e);
          }
          return Failed;
        }
        if matches {
          if sees {
            RangeHit(run, from, first, last, i, offset, start, previous, room);
          }
          return Deliver(e, room);
        }
        if e.id > last || (exact && e.id > first) {
          if sees {
            RangeMiss(run, from, first, last, i, offset, start, previous, room);
          }
          return NotFound;
        }
        if sees {
          StandNext(run, from, want, i, offset, start, previous);
        }
        previous, offset, i := Some(e), offset + Size(e), i + 1;
      }
      if sees {
        StandHere(run, from, want, i, offset, start, previous);
        RangeMiss(run, from, first, last, i, offset, start, previous, room);
      }
      r := NotFound;
    }

    /** Searches the index by uptime when the range is entered from its start, by ID when it is resumed. */
    method FindMatchStart(d: Desc, boot: nat, lo: nat, hi: nat, first: nat, byUptime: bool, ghost run: seq<Entry>)
      returns (offset: nat, start: Option<IndexItem>, ghost from: nat)
      requires IndexConsistent(d, index)
      ensures Increasing(run) && TimelyRun(run) && index == Sample(run) && run != [] ==>
        && from <= |run| && Standing(run, from, InBoot(boot, lo, hi, first), from, offset, start, None)
        && (NoneIn(run[..from], InBoot(boot, lo, hi, first)) <==> !(byUptime && Skips(run, boot, lo, hi, first)))
    {
      hide Standing, StartsAt, BootStartsAt, Increasing, TimelyRun, NoneIn, Sample, Skips, IndexConsistent, Boot;
      ConsistentSorted(d, index);
      ghost var m;
      if byUptime {
        offset, start, m := FindBootReadStart(boot, lo);
      } else {
        offset, start, m := FindReadStart(first);
      }
      from := STRIDE * m;
      if Increasing(run) && TimelyRun(run) && index == Sample(run) && run != [] {
        StandAtStart(run, m, InBoot(boot, lo, hi, first));
        if byUptime {
          BootStartExact(run, m, boot, lo, hi, first);
        } else {
          StartMissesNothing(run, m, InBoot(boot, lo, hi, first), first);
        }
      }
    }

    method ReadMatchingBootEntry(d: Desc, at: Ident, boot: nat, lo: nat, hi: nat, first: nat, byUptime: bool, room: nat,
                                 ghost run: seq<Entry>, ghost sealed: bool)
      returns (r: Read)
      requires IndexConsistent(d, index)
      modifies this`clock
      ensures Hit(r).Some? ==> InBoot(boot, lo, hi, first)(Hit(r).value) && Accepts(Hit(r).value, at)
      ensures Sees(at, run, sealed) && d.dataEnd == End(run) && index == Sample(run) && run != [] ==>
              Partial(run, InBoot(boot, lo, hi, first), room, r, byUptime && Skips(run, boot, lo, hi, first))
    {
      hide Readable, Standing, StartsAt, BootStartsAt, Increasing, TimelyRun, NoneIn, Off, End, Accepts, Sample,
           Deliver, Partial, Skips, IndexConsistent, Misplaced, OutOfOrder, Boot, Size, AlignEntry, Span;
      ghost var want := InBoot(boot, lo, hi, first);
      ghost var skips := byUptime && Skips(run, boot, lo, hi, first);
      ghost var sees := Sees(at, run, sealed) && d.dataEnd == End(run) && index == Sample(run) && run != [];
      var offset, start;
      ghost var from;
      offset, start, from := FindMatchStart(d, boot, lo, hi, first, byUptime, run);
      ghost var i := from;
      var previous: Option<Entry> := None;
      if sees {
        RunInOrder(snap, disks, g, at, run, sealed);
      }
      while offset < d.dataEnd
        invariant sees ==> Standing(run, from, want, i, offset, start, previous)
        decreases d.dataEnd - offset
      {
        if sees {
          StandHere(run, from, want, i, offset, start, previous);
        }
        var record := ReadRecord(at, d.dataEnd, offset, run, sealed, i);
        if record == None {
          return Failed;
        }
        var e := record.value;
        var matches := e.id >= first && Boot(e.id) == boot && lo <= e.uptime <= hi;
        if Misplaced(start, previous, e, offset) || (previous.Some? && OutOfOrder(previous.value, e)) {
          return Failed;
        }
        if matches {
          if sees {
            BootScanHit(run, from, want, i, offset, start, previous, room, skips);
          }
          return Deliver(e, room);
        }
        if Boot(e.id) > boot || (Boot(e.id) == boot && e.uptime > hi) {
          if sees {
            BootScanMiss(run, from, boot, lo, hi, first, i, offset, start, previous, room, skips);
          }
          return NotFound;
        }
        if sees {
          StandNext(run, from, want, i, offset, start, previous);
        }
        previous, offset, i := Some(e), offset + Size(e), i + 1;
      }
      if sees {
        StandHere(run, from, want, i, offset, start, previous);
        BootScanMiss(run, from, boot, lo, hi, first, i, offset, start, previous, room, skips);
      }
      r := NotFound;
    }

    // ---------- Whole lookups ----------

    /** The first entry of an ID range. While the reader is undisturbed, the answer is that of a search
        through everything the snapshot shows. */
    method ReadEntryInternal(first: nat, last: nat, exact: bool, room: nat, ghost p: P) returns (r: Read)
      requires exact ==> first == last
      modifies this`clock, this`index
      ensures Hit(r).Some? ==> InRange(first, last)(Hit(r).value)
      ensures Undisturbed(p) ==> Answers(Visible(p), InRange(first, last), room, r)
    {
      hide Undisturbed, Answers, LowestCandidate, Visible, Overlaps, InRange;
      var d := FindReadSegment(first, last, exact);
      if d == None {
        if Undisturbed(p) {
          NoCandidateAnswers(p, first, last, exact, room);
        }
        return NotFound;
      }

      ghost var k, run := 0, [];
      if Undisturbed(p) {
        k, run := SelectedRun(p, first, last, exact, d.value);
      }
      var at := PrepareReadSegment(d.value, run);
      if at == None {
        return Failed;
      }
      ConsistentSorted(d.value, index);
      r := ReadMatchingEntry(d.value, at.value, first, last, exact, room, run, d.value.sealed);
      if Undisturbed(p) {
        SelectedAnswers(p, k, first, last, exact, room, r);
      }
    }

    method ReadEntry(id: nat, room: nat, ghost p: P) returns (r: Option<Read>)
      modifies this`clock, this`index
      ensures r == None <==> id == 0
      ensures r.Some? && Undisturbed(p) ==> Answers(Visible(p), InRange(id, id), room, r.value)
    {
      if id == 0 {
        return None;
      }
      var found := ReadEntryInternal(id, id, true, room, p);
      r := Some(found);
    }

    /** The first entry of a boot within an uptime range, from the start (next == 0) or resumed. Resumed, the answer is
        that of a search through everything; from the start it is exactly when the search by uptime does not skip. */
    method ReadBootEntryFromSnapshot(boot: nat, lo: nat, hi: nat, next: nat, room: nat, ghost p: P) returns (r: Read)
      modifies this`clock, this`index
      ensures Hit(r).Some? ==> InBoot(boot, lo, hi, FirstWanted(boot, next))(Hit(r).value)
      ensures Undisturbed(p) ==> Exact(View(p), boot, lo, hi, FirstWanted(boot, next), next == 0, room, r)
    {
      hide Undisturbed, LowestCandidate, Pending, Exact, Selected, Partial, Skips, View, RunOf, Sorted;
      var bootLast := BootLast(boot);
      var first := FirstWanted(boot, next);
      var byUptime := next == 0;
      r := NotFound;
      if Undisturbed(p) {
        PendingStart(View(p), boot, lo, hi, first, byUptime);
      }
      while true
        invariant FirstWanted(boot, next) <= first && r == NotFound
        invariant Undisturbed(p) ==> Pending(View(p), boot, lo, hi, FirstWanted(boot, next), first, byUptime)
        decreases bootLast + 1 - first
      {
        var d := FindReadSegment(first, bootLast, false);
        if d == None {
          if Undisturbed(p) {
            NoneLeftIsExact(p, boot, lo, hi, FirstWanted(boot, next), first, byUptime, room);
          }
          return;
        }
        CandidateMeets(snap.segments, first, bootLast, d.value);
        ghost var k, run := 0, [];
        if Undisturbed(p) {
          k, run := SelectedBootRun(p, first, bootLast, d.value);
        }
        var at := PrepareReadSegment(d.value, run);
        if at == None {
          return Failed;
        }
        r := ReadMatchingBootEntry(d.value, at.value, boot, lo, hi, first, byUptime, room, run, d.value.sealed);
        if Undisturbed(p) {
          OutcomeIsExact(p, k, boot, lo, hi, FirstWanted(boot, next), first, byUptime, room, r);
        }
        if r != NotFound || d.value.last >= bootLast {
          return;
        }
        first := d.value.last + 1;
      }
    }
  }

  /** A disk that nobody writes to serves every snapshot of its store. */
  lemma RestingDiskServes(p: P)
    requires Inv(p) && p.mode == Live
    ensures Serves(p.d, p)
  {
    InvShape(p);
    assert Overtakes(p, p);
    Served(p, p);
  }

  /** A lookup that overlaps an append: unless the append opens a new segment, for which it would have had to wait, the
      lookup answers for the store as it was when the snapshot was taken, whichever disks of the append it meets. */
  method ReadDuringAppend(reader: SnapshotReader, source: Store, typ: nat, payload: seq<byte>, now: nat,
                          forceFlush: bool, first: nat, last: nat, room: nat)
    returns (r: Read)
    requires source.Valid() && OnTime(source.p, now) && source.p.d.store == reader.store && source.p.d.g == reader.g
    modifies reader, source
    ensures source.Valid()
    ensures Top(source.p.l) == Top(old(source.p).l) && reader.MeetsOnly(old(source.run), source.run) ==>
              Answers(Visible(old(source.p)), InRange(first, last), room, r)
  {
    hide source.Valid, reader.Undisturbed, reader.MeetsOnly, Inv, OnTime, Answers, Visible, UnlockedSince, Legal,
         SnapshotOf, Appended, Top;
    ghost var since, p := source.run, source.p;
    TracePoint(source);
    reader.TakeSnapshot(source);
    var _, _ := source.AppendEntry(typ, payload, now, forceFlush);
    TracePoint(source);
    if Top(source.p.l) == Top(p.l) && reader.MeetsOnly(since, source.run) {
      reader.StoreDoesNotDisturb(since, source.run);
    }
    r := reader.ReadEntryInternal(first, last, false, room, p);
  }

  lemma TracePoint(source: Store)
    requires source.Valid()
    ensures Legal(source.run) && source.run.p == source.p
  {
    hide Legal, Inv;
  }
}
