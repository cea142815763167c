/** The store object: appending, flushing, rotating and recovering. Every write it makes is a step of a protocol run, so
    what CrashSafety proves about runs holds between any two of its writes. */
module Engine {
  import opened Layout
  import opened Segment
  import opened Device
  import opened Protocol
  import opened Recovery
  import opened Runs
  import opened Memory
  import opened CrashSafety
  import opened Restart

  datatype Status = Ok | InvalidArg | InvalidSize | InvalidState

  const ENTRY_RESERVED_START := 0xfff0

  /** An append fails only when the entry cannot fit even an empty segment, or when the boot's IDs are used up. */
  function AppendStatus(size: nat, g: Geometry, s: Super): Status
  {
    if size == 0 || size + DATA_START > g.dataEnd then InvalidSize
    else if s.sequence >= SEQUENCE_MASK then InvalidState
    else Ok
  }

  /** A run of the protocol, newest state last. */
  datatype Trace = Start(p: P) | Then(before: Trace, step: Step, p: P)

  ghost predicate Legal(t: Trace)
  {
    match t
    case Start(p) => Inv(p)
    case Then(before, step, p) => Legal(before) && Next(before.p, step, p)
  }

  ghost predicate Within(t: Trace, later: Trace)
  {
    later == t || (later.Then? && Within(t, later.before))
  }

  lemma {:induction false} WithinTransitive(a: Trace, b: Trace, c: Trace)
    requires Within(a, b) && Within(b, c)
    ensures Within(a, c)
  {
    if c != b {
      WithinTransitive(a, b, c.before);
    }
  }

  lemma WithinChains()
    ensures forall a, b, c :: Within(a, b) && Within(b, c) ==> Within(a, c)
    ensures forall a :: Within(a, a)
  {
    forall a, b, c | Within(a, b) && Within(b, c) ensures Within(a, c) {
      WithinTransitive(a, b, c);
    }
  }

  /** From t to later, no step needed the read lock: no retirement, no activation, no restart. */
  ghost predicate UnlockedSince(t: Trace, later: Trace)
  {
    later == t || (later.Then? && UnlockedStep(later.before.p, later.step) && UnlockedSince(t, later.before))
  }

  lemma {:induction false} UnlockedTransitive(a: Trace, b: Trace, c: Trace)
    requires UnlockedSince(a, b) && UnlockedSince(b, c)
    ensures UnlockedSince(a, c)
  {
    if c != b {
      UnlockedTransitive(a, b, c.before);
    }
  }

  lemma UnlockedChains()
    ensures forall a, b, c :: UnlockedSince(a, b) && UnlockedSince(b, c) ==> UnlockedSince(a, c)
    ensures forall a :: UnlockedSince(a, a)
  {
    forall a, b, c | UnlockedSince(a, b) && UnlockedSince(b, c) ensures UnlockedSince(a, c) {
      UnlockedTransitive(a, b, c);
    }
  }

  /** What one store object does while the power stays on: from `since` on nothing but power-on,
      accepted entries and writes, where a first header is followed at once by the second one of the
      same slot, which is not written otherwise. */
  ghost predicate Powered(since: Trace, t: Trace)
  {
    || t == since
    || (t.Then? &&
        if IsHeader(t.step, 1) then
          && t.before.Then? && t.before.step == Step.Io(WriteHeader(t.step.op.slot, 0, t.step.op.at))
          && Powered(since, t.before.before)
        else
          && (t.step.PowerOn? || t.step.Accept? || t.step.Io?) && !IsHeader(t.step, 0)
          && Powered(since, t.before))
  }

  predicate IsHeader(step: Step, copy: nat) { step.Io? && step.op.WriteHeader? && step.op.copy == copy }

  lemma {:induction false} LegalInv(t: Trace)
    requires Legal(t)
    ensures Inv(t.p)
  {
    if t.Then? {
      LegalInv(t.before);
      StepKeeps(t.before.p, t.step, t.p);
    }
  }

  function StatesOf(t: Trace): seq<P> { if t.Start? then [t.p] else StatesOf(t.before) + [t.p] }

  function StepsOf(t: Trace): seq<Step> { if t.Start? then [] else StepsOf(t.before) + [t.step] }

  /** The trace a store accumulates is a run, so everything CrashSafety says about runs applies to it. */
  lemma {:induction false} TraceIsRun(t: Trace)
    requires Legal(t)
    ensures IsRun(StatesOf(t), StepsOf(t)) && Inv(StatesOf(t)[0]) && StatesOf(t)[|StepsOf(t)|] == t.p
  {
    if t.Then? {
      TraceIsRun(t.before);
      var states, steps := StatesOf(t), StepsOf(t);
      forall i | 0 <= i < |steps| ensures Next(states[i], steps[i], states[i + 1]) {
        if i < |steps| - 1 {
          assert Next(StatesOf(t.before)[i], StepsOf(t.before)[i], StatesOf(t.before)[i + 1]);
        }
      }
    }
  }

  lemma DownFacts(t: Trace, p: P)
    requires Legal(t) && t.p == p && p.mode == Down
    ensures 1 <= |p.l.segs| && 2 <= |p.d.files| && p.buf == [] && p.d.g.dataEnd - DATA_START >= SLOT_SIZE
  {
    LegalInv(t);
  }

  class Store {
    const bufferSize: nat
    var disk: Disk
    var state: Super
    var segments: seq<Desc>
    var active: Ident
    var activeWriteOffset: nat
    var writeBuf: seq<Entry>
    var writeBufOffset: nat
    var sparseIndex: seq<IndexItem>
    var newestEntryId: nat

    // The run of the protocol when this object was made, the run so far, and its last state.
    ghost const past: Trace
    ghost var run: Trace
    ghost var p: P

    /** The disk is where the run of the protocol has got to. */
    ghost predicate Running()
      reads this
    {
      Legal(run) && Powered(past, run) && run.p == p && p.d == disk
    }

    function Memory(): Ram
      reads this
    {
      Ram(state, segments, active, activeWriteOffset, writeBuf, writeBufOffset, sparseIndex, newestEntryId)
    }

    ghost predicate Working(sealed: bool)
      reads this
    {
      Running() && Mirrors(p, Memory(), sealed)
    }

    /** Ready for callers: live, unsealed, every ID issued so far is below the next one, and the write buffer holds what
        is in it. */
    ghost predicate Valid()
      reads this
    {
      && Working(false) && p.mode == Live && p.last <= MakeId(state.boot, state.sequence)
      && Span(writeBuf) <= bufferSize
    }

    // ---------- Durable writes ----------

    /** Writes and syncs. Power loss inside this call is a PowerLossDuring(op) step from the state before it. */
    method Io(op: Op)
      requires Running() && OpInRange(op, |p.d.files|) && Allowed(p, op) && !op.WriteHeader?
      modifies this`disk, this`run, this`p
      ensures Running() && p == After(old(p), op) && SameLayout(old(p).d, p.d)
      ensures Within(old(run), run)
      ensures run == Then(old(run), Step.Io(op), p) && (Unlocked(old(p), op) ==> UnlockedSince(old(run), run))
    {
      hide Inv, Allowed;
      AfterSameLayout(p, op);
      disk := Apply(disk, op);
      run, p := Then(run, Step.Io(op), After(p, op)), After(p, op);
    }

    /** Writes and syncs the two headers of a slot, the first one first. */
    method WriteHeaders(slot: nat, at: Ident)
      requires Running() && OpInRange(WriteHeader(slot, 0, at), |p.d.files|) && Allowed(p, WriteHeader(slot, 0, at))
      requires Allowed(After(p, WriteHeader(slot, 0, at)), WriteHeader(slot, 1, at))
      modifies this`disk, this`run, this`p
      ensures Running() && OpInRange(WriteHeader(slot, 1, at), |After(old(p), WriteHeader(slot, 0, at)).d.files|)
      ensures p == After(After(old(p), WriteHeader(slot, 0, at)), WriteHeader(slot, 1, at)) && SameLayout(old(p).d, p.d)
      ensures Within(old(run), run)
    {
      hide Inv, Allowed;
      for copy := 0 to 2
        invariant copy <= 2 && Legal(run) && run.p == p && p.d == disk && SameLayout(old(p).d, p.d)
        invariant Within(old(run), run)
        invariant copy == 0 ==> run == old(run) && p == old(p)
        invariant copy == 1 ==> run == Then(old(run), Step.Io(WriteHeader(slot, 0, at)), p)
        invariant copy == 1 ==> p == After(old(p), WriteHeader(slot, 0, at))
        invariant copy == 2 ==> p == After(After(old(p), WriteHeader(slot, 0, at)), WriteHeader(slot, 1, at))
        invariant copy == 2 ==> Powered(past, run)
      {
        var op := WriteHeader(slot, copy, at);
        AfterSameLayout(p, op);
        disk := Apply(disk, op);
        run, p := Then(run, Step.Io(op), After(p, op)), After(p, op);
      }
    }

    /** The superblock is written to the copy that does not hold the newest one. */
    method Commit()
      requires Running() && OpInRange(CommitOp(state), |p.d.files|) && Allowed(p, CommitOp(state))
      modifies this`disk, this`state, this`run, this`p
      ensures Running() && p == After(old(p), CommitOp(old(state))) && state == NextSuper(old(state)) &&
              SameLayout(old(p).d, p.d)
      ensures Within(old(run), run)
      ensures Unlocked(old(p), CommitOp(old(state))) ==> UnlockedSince(old(run), run)
    {
      hide Inv, Allowed, Legal, Powered, Within, Unlocked, UnlockedSince;
      WithinChains();
      state := state.(sgen := state.sgen + 1);
      Io(WriteSuper(state.sgen % 2, state));
    }

    method Flush()
      requires Working(false) && (writeBuf != [] ==> p.mode == Live)
      modifies this`disk, this`state, this`writeBuf, this`writeBufOffset, this`run, this`p
      ensures Working(false) && writeBuf == [] && state.sequence == old(state.sequence)
      ensures p == Settled(old(p)).(d := p.d) && SameLayout(old(p).d, p.d)
      ensures Within(old(run), run)
      ensures UnlockedSince(old(run), run)
    {
      hide Inv, Allowed, Mirrors, Legal, Powered, Within, After, Apply, OpInRange, Unlocked, UnlockedSince;
      WithinChains();
      UnlockedChains();
      SameBuffer(p, Memory(), false);
      if writeBuf == [] {
        return;
      }
      FlushRam(p, Memory());
      Io(WriteData(active.slot, writeBufOffset, writeBuf));
      CommitRam(p, Emptied(Memory()), false);
      Commit();
      writeBuf := [];
      writeBufOffset := activeWriteOffset;
    }

    // ---------- Sealing ----------

    /** Index first, then both footers. Seals the segment of rank k, whose descriptor and index are in memory. */
    method SealSegment(ghost k: nat)
      requires Running() && Sealable(p, k) && (p.mode == Live ==> !HasFooter(FileOf(p, k), IdentOf(p, k)))
      requires active == IdentOf(p, k) && active.slot < |segments| && sparseIndex == Sample(p.l.segs[k])
      requires segments[active.slot] ==
               DescOf(active, p.l.segs[k], segments[active.slot].sealed, segments[active.slot].indexCount)
      modifies this`disk, this`segments, this`run, this`p
      ensures Running() && p == old(p).(d := p.d) && Sealable(p, k) && SealStored(p, k)
      ensures OnlySlot(old(p).d, p.d, active.slot) && SameLayout(old(p).d, p.d)
      ensures segments == old(segments)[active.slot := DescOf(active, p.l.segs[k], true, IndexCount(|p.l.segs[k]|))]
      ensures Within(old(run), run)
      ensures IsTop(old(p), k) ==> UnlockedSince(old(run), run)
    {
      hide Inv, Allowed, IndexMatches, HasFooter, FooterOf, Sample, Legal, Powered, Within, After, Apply, OpInRange,
           Unlocked, UnlockedSince;
      WithinChains();
      UnlockedChains();
      if sparseIndex == [] {
        EmptyIndexStored(p, k);
      } else {
        StoreIndex(p, k);
        Io(WriteIndex(active.slot, sparseIndex));
      }
      var d := segments[active.slot];
      var footer := Footer(active, d.first, d.last, d.count, d.dataEnd, |sparseIndex|, sparseIndex);
      FooterFromDesc(active, p.l.segs[k], d, sparseIndex);
      StoreFooter(p, k, 0);
      Io(WriteFooter(active.slot, 0, footer));
      StoreFooter(p, k, 1);
      Io(WriteFooter(active.slot, 1, footer));
      segments := segments[active.slot := d.(sealed := true, indexCount := |sparseIndex|)];
    }

    method SealActiveSegment()
      requires Working(false) && (writeBuf != [] ==> p.mode == Live)
      modifies this`disk, this`state, this`segments, this`writeBuf, this`writeBufOffset, this`run, this`p
      ensures Working(true) && writeBuf == [] && state.sequence == old(state.sequence)
      ensures p == Settled(old(p)).(d := p.d) && SameLayout(old(p).d, p.d)
      ensures Within(old(run), run)
      ensures UnlockedSince(old(run), run)
    {
      hide Inv, Allowed, Mirrors, OnlySlot, SealStored, Sealable, Legal, Powered, Within, Unlocked, UnlockedSince;
      WithinChains();
      UnlockedChains();
      Flush();
      TopSealable(p, Memory());
      ghost var before := p;
      ghost var ram := Memory();
      SealSegment(TopRank(p));
      SealRam(before, p, ram);
    }

    // ---------- Rotation ----------

    method RetireSegment(slot: nat)
      requires Working(true) && writeBuf == [] && slot == NextSlot(p.l, |p.d.files|) && slot < |segments|
      requires p.mode == Live ==> LastSeg(p.l) != []
      modifies this`disk, this`state, this`segments, this`run, this`p
      ensures Working(true) && state.sequence == old(state.sequence)
      ensures p == old(p).(d := p.d, l := Evict(old(p.l), |old(p).d.files|)) && |p.l.segs| < |p.d.files|
      ensures SameLayout(old(p).d, p.d)
      ensures Within(old(run), run)
    {
      hide Inv, Allowed, Mirrors, Legal, Powered, Within, After, Apply, OpInRange;
      WithinChains();
      SameBuffer(p, Memory(), true);
      NextDesc(p, Memory());
      if !segments[slot].valid {
        return;
      }
      RetireRam(p, Memory());
      OldestAfterRetirement(p, Memory());
      ghost var retired := RetiredRam(p, Memory());
      var size := segments[slot].dataEnd - HEADER_REGION;
      state := state.(used := if state.used > size then state.used - size else 0);
      segments := segments[slot := NoDesc];
      var oldest := OldestGeneration();
      state := state.(oldestGen := oldest);
      assert Memory() == retired;
      Commit();
    }

    /** The least generation among the valid descriptors. */
    method OldestGeneration() returns (oldest: nat)
      requires Numbered(segments)
      ensures IsOldest(segments, |segments|, oldest)
    {
      oldest := 0;
      var slot := 0;
      while slot < |segments|
        invariant slot <= |segments| && IsOldest(segments, slot, oldest)
      {
        if segments[slot].valid && (oldest == 0 || segments[slot].gen < oldest) {
          oldest := segments[slot].gen;
        }
        slot := slot + 1;
      }
    }

    /** Both headers of the slot, then memory: from the first header on, recovery sees the new generation, empty. */
    method ActivateSegment(slot: nat, generation: nat)
      requires Working(true) && writeBuf == [] && |p.l.segs| < |p.d.files|
      requires slot == NextSlot(p.l, |p.d.files|) && generation == Top(p.l) + 1
      modifies this`disk, this`segments, this`active, this`activeWriteOffset, this`writeBuf, this`writeBufOffset,
        this`sparseIndex
      modifies this`run, this`p
      ensures Running() && p == Opened(old(p)).(d := p.d) && SameLayout(old(p).d, p.d)
      ensures slot < |segments| && writeBuf == []
      ensures
        Mirrors(p, Memory().(state := state.(activeSlot := slot, activeGen := generation, nextGen := generation + 1)),
                false)
      ensures Within(old(run), run)
    {
      hide Inv, Allowed, Mirrors, Synced, HeaderWritten, DescOf, NextSlot, Top, Legal, Powered, Within, Ready, After,
           Apply, OpInRange;
      WithinChains();
      SameBuffer(p, Memory(), true);
      ghost var before := p;
      ghost var ram := Memory();
      var at := Ident(disk.store, slot, generation);
      FirstHeader(p, ram, at);
      SecondHeader(After(p, WriteHeader(slot, 0, at)), state, at);
      WriteHeaders(slot, at);
      ActivateRam(before, p, ram);
      active := at;
      activeWriteOffset := DATA_START;
      writeBufOffset := activeWriteOffset;
      writeBuf := [];
      sparseIndex := [];
      EmptyDesc(at);
      segments := segments[slot := Desc(true, false, slot, generation, 0, 0, 0, DATA_START, 0)];
    }

    method OpenNextSegment()
      requires Working(true) && writeBuf == [] && (p.mode == Live ==> LastSeg(p.l) != [])
      modifies this`disk, this`state, this`segments, this`active, this`activeWriteOffset, this`writeBuf,
        this`writeBufOffset
      modifies this`sparseIndex, this`run, this`p
      ensures Working(false) && writeBuf == [] && state.sequence == old(state.sequence)
      ensures p == Rotated(old(p)).(d := p.d) && LastSeg(p.l) == [] && SameLayout(old(p).d, p.d)
      ensures Within(old(run), run)
    {
      hide Inv, Allowed, Mirrors, Legal, Powered, Within;
      WithinChains();
      SameBuffer(p, Memory(), true);
      NextDesc(p, Memory());
      NextStep(p, Memory());
      var nextSlot := Successor(state.activeSlot, |segments|);
      var nextGeneration := state.nextGen;
      EvictKeepsNext(p, Memory());
      RetireSegment(nextSlot);
      ActivateSegment(nextSlot, nextGeneration);
      state := state.(activeSlot := nextSlot, activeGen := nextGeneration, nextGen := nextGeneration + 1);
      OldestOfMirror(p, Memory(), false);
      var oldest := OldestGeneration();
      state := state.(oldestGen := oldest);
      CommitRam(p, Memory(), false);
      Commit();
    }

    method RotateActiveSegment()
      requires Working(false) && (writeBuf != [] ==> p.mode == Live) && (p.mode == Live ==> TopRun(p) != [])
      modifies this`disk, this`state, this`segments, this`active, this`activeWriteOffset, this`writeBuf,
        this`writeBufOffset
      modifies this`sparseIndex, this`run, this`p
      ensures Working(false) && writeBuf == [] && state.sequence == old(state.sequence)
      ensures p == Rotated(Settled(old(p))).(d := p.d) && LastSeg(p.l) == [] && SameLayout(old(p).d, p.d)
      ensures Within(old(run), run)
    {
      hide Inv, Allowed, Mirrors, Legal, Powered, Within;
      WithinChains();
      MirrorShape(p, Memory(), false);
      SettledTop(p);
      SealActiveSegment();
      OpenNextSegment();
    }

    // ---------- Appending ----------

    /** Makes room for an entry of this size in the newest segment, rotating when it does
        not fit behind the last entry. */
    method PrepareEntrySpace(size: nat) returns (status: Status)
      requires Working(false) && p.mode == Live
      modifies this`disk, this`state, this`segments, this`active, this`activeWriteOffset, this`writeBuf,
        this`writeBufOffset
      modifies this`sparseIndex, this`run, this`p
      ensures Working(false) && state.sequence == old(state.sequence) && p.mode == Live
      ensures status == (if size > p.d.g.dataEnd - DATA_START then InvalidSize else Ok)
      ensures Quiet(old(p), p, Rotates(Contents(old(p)), old(p).d.g, size))
      ensures status == Ok ==> activeWriteOffset + size <= p.d.g.dataEnd
      ensures writeBuf == [] || writeBuf == old(writeBuf)
      ensures Within(old(run), run)
      ensures !Rotates(Contents(old(p)), old(p).d.g, size) ==> run == old(run)
    {
      hide Inv, Allowed, Mirrors, Legal, Powered, Within, Quiet;
      WithinChains();
      WriteOffsetInRange(p, Memory(), false);
      RotatesWhenFull(p, Memory(), size);
      QuietIsReflexive(p);
      if size > disk.g.dataEnd - DATA_START {
        status := InvalidSize;
        return;
      }
      status := Ok;
      if size <= disk.g.dataEnd - activeWriteOffset {
        return;
      }
      RotateActiveSegment();
      RotatedQuiet(old(p), p);
      WriteOffsetInRange(p, Memory(), false);
      SameBuffer(p, Memory(), false);
    }

    /** The next ID of this boot, or 0 when the 40-bit sequence is used up. */
    method MakeNextEntryId() returns (id: nat)
      requires Working(false)
      modifies this`state, this`newestEntryId
      ensures Working(false) && state.boot == old(state.boot) && old(state.sequence) <= state.sequence
      ensures if old(state.sequence) >= SEQUENCE_MASK then id == 0 && state == old(state)
              else id == MakeId(state.boot, state.sequence) && state.sequence == old(state.sequence) + 1
    {
      hide Inv, Allowed, Mirrors, Legal, Powered;
      if state.sequence >= SEQUENCE_MASK {
        id := 0;
        return;
      }
      var sequence := state.sequence + 1;
      AdvanceSequence(p, Memory(), false, sequence, MakeId(state.boot, sequence));
      newestEntryId := MakeId(state.boot, sequence);
      state := state.(sequence := sequence, newest := newestEntryId);
      id := newestEntryId;
    }

    /** Updates descriptor, index, offsets and totals for an entry put at the write offset. */
    method AccountAppendedEntry(e: Entry)
      requires active.slot < |segments|
      requires segments[active.slot].count % STRIDE == 0 ==>
               |sparseIndex| < disk.g.indexCapacity && activeWriteOffset <= SIZE_MAX
      modifies this`state, this`segments, this`activeWriteOffset, this`sparseIndex, this`newestEntryId
      ensures Memory() == Accounted(old(Memory()), e).(buf := writeBuf, bufOffset := writeBufOffset)
    {
      var d := segments[active.slot];
      if d.count % STRIDE == 0 {
        sparseIndex := AddSparseIndexEntry(sparseIndex, disk.g.indexCapacity, e, activeWriteOffset);
      }
      if d.count == 0 {
        d := d.(first := e.id);
      }
      d := d.(last := e.id, count := d.count + 1, dataEnd := activeWriteOffset + Size(e), indexCount := |sparseIndex|);
      segments := segments[active.slot := d];
      activeWriteOffset := d.dataEnd;
      state := state.(used := state.used + Size(e), newest := e.id);
      newestEntryId := e.id;
    }

    /** Records that an entry was accepted. */
    ghost method RecordAccept(entry: Entry)
      requires Running() && Acceptable(p, entry)
      modifies this`run, this`p
      ensures Running() && p == Taken(old(p), entry) && Within(old(run), run)
      ensures UnlockedSince(old(run), run)
    {
      hide Inv, Acceptable;
      run, p := Then(run, Accept(entry), Taken(p, entry)), Taken(p, entry);
    }

    /** Puts an entry into the write buffer and accounts for it. */
    method BufferEntry(entry: Entry)
      requires Working(false) && p.mode == Live && OnTime(p, entry.uptime)
      requires entry.at == active && p.last < entry.id && Boot(entry.id) == state.boot && Sequenced(entry.id)
      requires activeWriteOffset + Size(entry) <= p.d.g.dataEnd && Span(writeBuf) + Size(entry) <= bufferSize
      modifies this`state, this`segments, this`activeWriteOffset, this`writeBuf, this`writeBufOffset, this`sparseIndex
      modifies this`newestEntryId, this`run, this`p
      ensures writeBuf == old(writeBuf) + [entry] && Span(writeBuf) <= bufferSize
      ensures Working(false) && p == Taken(old(p), entry) && Within(old(run), run)
      ensures state.sequence == old(state.sequence) && state.boot == old(state.boot)
      ensures UnlockedSince(old(run), run)
    {
      hide Inv, Allowed, Mirrors, OnTime, Acceptable, Legal, Powered, Within, UnlockedSince, Span, Sample, Boot,
           Sequenced;
      TakeIn(p, Memory(), entry);
      IndexRoom(p, Memory(), entry);
      RecordAccept(entry);
      if writeBuf == [] {
        writeBufOffset := activeWriteOffset;
      }
      SpanPush(writeBuf, entry);
      writeBuf := writeBuf + [entry];
      AccountAppendedEntry(entry);
    }

    /** Flushes the write buffer unless there is room in it. */
    method MakeBufferRoom(size: nat)
      requires Valid() && size <= bufferSize
      modifies this`disk, this`state, this`writeBuf, this`writeBufOffset, this`run, this`p
      ensures Working(false) && Quiet(old(p), p, false) && Span(writeBuf) + size <= bufferSize
      ensures state.sequence == old(state.sequence) && Within(old(run), run) && UnlockedSince(old(run), run)
    {
      hide Inv, Allowed, Mirrors, Legal, Powered, Within, Quiet, UnlockedSince;
      WithinChains();
      UnlockedChains();
      MirrorShape(p, Memory(), false);
      QuietIsReflexive(p);
      if Span(writeBuf) + size > bufferSize {
        Flush();
        SettledQuiet(old(p), p);
      }
    }

    /** The next entry for the newest segment, unless the boot's IDs are used up. */
    method NextEntry(typ: nat, payload: seq<byte>, now: nat) returns (entry: Option<Entry>)
      requires Working(false) && p.last <= MakeId(state.boot, state.sequence)
      modifies this`state, this`newestEntryId
      ensures Working(false) && state.boot == old(state.boot) && p.last <= MakeId(state.boot, state.sequence)
      ensures entry.None? <==> old(state.sequence) >= SEQUENCE_MASK
      ensures state.sequence == old(state.sequence) + if entry.Some? then 1 else 0
      ensures entry.Some? ==>
        && entry.value == Entry(typ, MakeId(state.boot, state.sequence), now, payload, active)
        && p.last < entry.value.id && Boot(entry.value.id) == state.boot && Sequenced(entry.value.id)
    {
      hide Inv, Allowed, Mirrors, Legal, Powered;
      FreshId(state.boot, state.sequence, p.last);
      var id := MakeNextEntryId();
      entry := if id == 0 then None else Some(Entry(typ, id, now, payload, active));
    }

    /** Puts an entry into the write buffer, and writes the buffer out when that is asked for. */
    method StoreBuffered(entry: Entry, forceFlush: bool)
      requires Working(false) && p.mode == Live && OnTime(p, entry.uptime)
      requires entry.at == active && p.last < entry.id && Boot(entry.id) == state.boot && Sequenced(entry.id)
      requires activeWriteOffset + Size(entry) <= p.d.g.dataEnd && Span(writeBuf) + Size(entry) <= bufferSize
      modifies this
      ensures Working(false) && Quiet(Taken(old(p), entry), p, false) && (forceFlush ==> p.buf == [])
      ensures p.mode == Live && p.last == entry.id
      ensures state.sequence == old(state.sequence) && state.boot == old(state.boot)
      ensures Span(writeBuf) <= bufferSize && Within(old(run), run) && UnlockedSince(old(run), run)
    {
      hide Inv, Allowed, Mirrors, Legal, Powered, Within, OnTime, Quiet, UnlockedSince;
      WithinChains();
      UnlockedChains();
      MirrorSlots(p, Memory(), false);
      BufferEntry(entry);
      QuietIsReflexive(p);
      MirrorShape(p, Memory(), false);
      ghost var taken := p;
      if forceFlush {
        Flush();
        SettledQuiet(taken, p);
        SameBuffer(p, Memory(), false);
      }
      MirrorSlots(p, Memory(), false);
    }

    method AppendBufferedEntry(typ: nat, payload: seq<byte>, now: nat, forceFlush: bool)
      returns (status: Status, e: Option<Entry>)
      requires Valid() && OnTime(p, now) && 0 < EntrySize(|payload|) <= bufferSize
      modifies this
      ensures Valid() && Within(old(run), run)
      ensures Appended(old(p), p, status == Ok, e, typ, payload, now)
      ensures status == AppendStatus(EntrySize(|payload|), old(disk).g, old(state))
      ensures state.sequence == old(state.sequence) + if status == Ok then 1 else 0
      ensures Top(p.l) == Top(old(p).l) + Turns(old(p), EntrySize(|payload|))
      ensures status == Ok && forceFlush ==> p.buf == []
      ensures Turns(old(p), EntrySize(|payload|)) == 0 ==> UnlockedSince(old(run), run)
    {
      hide Inv, Allowed, Mirrors, Legal, Powered, Within, OnTime, Quiet, Appended, UnlockedSince, Top, Rotates,
           Contents;
      WithinChains();
      UnlockedChains();
      MirrorSlots(p, Memory(), false);
      e := None;
      var size := EntrySize(|payload|);
      MakeBufferRoom(size);
      QuietRotates(old(p), p, size);
      ghost var flushed := p;
      status := PrepareEntrySpace(size);
      MirrorSlots(p, Memory(), false);
      ghost var room := p;
      RoomMade(old(p), flushed, room, size, typ, payload, now);
      if status != Ok {
        return;
      }
      var entry := NextEntry(typ, payload, now);
      if entry == None {
        status := InvalidState;
        return;
      }
      StoreBuffered(entry.value, forceFlush);
      e := entry;
      AppendedBy(old(p), room, p, entry.value);
    }

    /** Entries larger than the write buffer go straight to the file and are synced before the call returns. */
    method AppendDirectEntry(typ: nat, payload: seq<byte>, now: nat) returns (status: Status, e: Option<Entry>)
      requires Valid() && OnTime(p, now) && EntrySize(|payload|) != 0
      modifies this
      ensures Valid() && Within(old(run), run)
      ensures Appended(old(p), p, status == Ok, e, typ, payload, now)
      ensures status == AppendStatus(EntrySize(|payload|), old(disk).g, old(state))
      ensures state.sequence == old(state.sequence) + if status == Ok then 1 else 0
      ensures Top(p.l) == Top(old(p).l) + Turns(old(p), EntrySize(|payload|))
      ensures status == Ok ==> p.buf == []
      ensures Turns(old(p), EntrySize(|payload|)) == 0 ==> UnlockedSince(old(run), run)
    {
      hide Inv, Allowed, Mirrors, Legal, Powered, Within, OnTime, Quiet, Appended, UnlockedSince, Top, Rotates,
           Contents, EntrySize, Settled, Boot, Sequenced, MakeId;
      WithinChains();
      UnlockedChains();
      MirrorSlots(p, Memory(), false);
      e := None;
      var size := EntrySize(|payload|);
      Flush();
      SettledQuiet(old(p), p);
      QuietRotates(old(p), p, size);
      ghost var flushed := p;
      status := PrepareEntrySpace(size);
      MirrorSlots(p, Memory(), false);
      ghost var room := p;
      RoomMade(old(p), flushed, room, size, typ, payload, now);
      if status != Ok {
        return;
      }
      var entry := NextEntry(typ, payload, now);
      if entry == None {
        status := InvalidState;
        return;
      }
      WriteThrough(entry.value);
      SettledQuiet(Taken(room, entry.value), p);
      SameBuffer(p, Memory(), false);
      e := entry;
      AppendedBy(old(p), room, p, entry.value);
    }

    /** Writes one entry at the write offset, accounts for it and checkpoints the superblock. */
    method WriteThrough(entry: Entry)
      requires Working(false) && writeBuf == [] && p.mode == Live && OnTime(p, entry.uptime)
      requires entry.at == active && p.last < entry.id && Boot(entry.id) == state.boot && Sequenced(entry.id)
      requires activeWriteOffset + Size(entry) <= p.d.g.dataEnd
      modifies this
      ensures Working(false) && p == Settled(Taken(old(p), entry)).(d := p.d) && SameLayout(old(p).d, p.d) &&
              writeBuf == []
      ensures state.sequence == old(state.sequence) && state.boot == old(state.boot) && Within(old(run), run)
      ensures UnlockedSince(old(run), run)
    {
      hide Inv, Allowed, Mirrors, OnTime, Acceptable, Legal, Powered, Within, Sample, TopRun, After, Apply, OpInRange,
           Unlocked, UnlockedSince;
      WithinChains();
      UnlockedChains();
      SameBuffer(p, Memory(), false);
      TakeIn(p, Memory(), entry);
      IndexRoom(p, Memory(), entry);
      ghost var taken := Accounted(Memory(), entry);
      assert taken.buf == [entry] && taken.bufOffset == activeWriteOffset;
      RecordAccept(entry);
      FlushRam(p, taken);
      Io(WriteData(active.slot, activeWriteOffset, [entry]));
      AccountAppendedEntry(entry);
      OffsetUnused(p, Emptied(taken), false, writeBufOffset);
      CommitRam(p, Memory(), false);
      Commit();
    }

    method AppendEntryUnchecked(typ: nat, payload: seq<byte>, now: nat, forceFlush: bool)
      returns (status: Status, e: Option<Entry>)
      requires Valid() && OnTime(p, now)
      modifies this
      ensures Valid() && Within(old(run), run)
      ensures Appended(old(p), p, status == Ok, e, typ, payload, now)
      ensures status == AppendStatus(EntrySize(|payload|), old(disk).g, old(state)) &&
              (status == InvalidSize ==> p == old(p))
      ensures state.sequence == old(state.sequence) + if status == Ok then 1 else 0
      ensures Top(p.l) == Top(old(p).l) + Turns(old(p), EntrySize(|payload|))
      ensures status == Ok && (forceFlush || EntrySize(|payload|) > bufferSize) ==> p.buf == []
      ensures Turns(old(p), EntrySize(|payload|)) == 0 ==> UnlockedSince(old(run), run)
    {
      hide Inv, Allowed, Mirrors, Legal, Powered, Within, OnTime, Quiet, Appended, UnlockedSince, Top, Contents;
      WithinChains();
      UnlockedChains();
      MirrorSlots(p, Memory(), false);
      var size := EntrySize(|payload|);
      if size == 0 || size > disk.g.dataEnd - DATA_START {
        RotatesWhenFull(p, Memory(), size);
        WriteOffsetInRange(p, Memory(), false);
        QuietIsReflexive(p);
        QuietAppendsNothing(p, p, false, typ, payload, now);
        status, e := InvalidSize, None;
      } else if size > bufferSize {
        status, e := AppendDirectEntry(typ, payload, now);
      } else {
        status, e := AppendBufferedEntry(typ, payload, now, forceFlush);
      }
    }

    // ---------- Recovery ----------

    ghost predicate Restoring()
      reads this
    {
      Running() && Restarting(p, state) && state.oldestGen == p.l.base && |segments| == |p.d.files|
    }

    /** A sealed segment whose index is damaged: a scan that must reach the footer's boundary, then a fresh seal. */
    method RepairSealedSegment(slot: nat, at: Ident, footer: Footer, ghost k: nat)
      requires Restoring() && k < |p.l.segs| && at == IdentOf(p, k) && slot == at.slot && slot < |segments|
      requires LoadFooter(FileOf(p, k), at, p.d.g) == Some(footer)
      modifies this`disk, this`segments, this`active, this`activeWriteOffset, this`writeBufOffset, this`sparseIndex
      modifies this`run, this`p
      ensures Restoring() && Within(old(run), run)
      ensures p == old(p).(d := p.d) && OnlySlot(old(p).d, p.d, slot) && SameLayout(old(p).d, p.d)
      ensures segments == old(segments)[slot := segments[slot]] && RecoveredAs(p, slot, segments[slot])
      ensures TopSealed(p) <==> TopSealed(old(p))
    {
      hide Inv, Allowed, Legal, Powered, Within, RecoveredAs, Restarting, HasFooter, Sealable, SealStored, Scan,
           FooterOf, After, Apply, LoadFooter, IndexMatches, TopSealed;
      ContentsKnown(p, state, k);
      RestartSealable(p, state, k);
      RestartShape(p, state);
      var d, index := ScanSegment(disk.files[slot].cells, at, disk.g, true, Some(footer));
      active := at;
      activeWriteOffset := d.value.dataEnd;
      writeBufOffset := activeWriteOffset;
      sparseIndex := index;
      segments := segments[slot := d.value];
      SealSegment(k);
      SealedRestart(old(p), p, state, k);
      RecoveredSealed(old(p), p, k);
    }

    /** One retained slot: by its footer when the index agrees with it, by a scan when there is no footer, by a repair
        when the index is damaged. */
    method RecoverSegmentContents(slot: nat, at: Ident, ghost k: nat) returns (status: Status)
      requires Restoring() && k < |p.l.segs| && at == IdentOf(p, k) && slot == at.slot && slot < |segments|
      modifies this`disk, this`segments, this`active, this`activeWriteOffset, this`writeBufOffset, this`sparseIndex
      modifies this`run, this`p
      ensures status == Ok && Restoring() && Within(old(run), run)
      ensures p == old(p).(d := p.d) && OnlySlot(old(p).d, p.d, slot) && SameLayout(old(p).d, p.d)
      ensures segments == old(segments)[slot := segments[slot]] && RecoveredAs(p, slot, segments[slot])
      ensures TopSealed(p) <==> TopSealed(old(p))
    {
      hide Inv, Allowed, Legal, Powered, Within, RecoveredAs, Restarting, HasFooter, Sealable, SealStored, Scan,
           FooterOf, After, Apply, LoadFooter, IndexMatches, TopSealed;
      WithinChains();
      status := Ok;
      ContentsKnown(p, state, k);
      var file := disk.files[slot];
      var footer := LoadFooter(file, at, disk.g);
      if footer.None? {
        var d, _ := ScanSegment(file.cells, at, disk.g, false, None);
        OpenRecovered(p, state, k, 0);
        segments := segments[slot := d.value];
      } else if IndexMatches(file, footer.value) {
        FastRecovered(p, state, k, footer.value);
        segments := segments[slot := FooterDesc(footer.value)];
      } else {
        RepairSealedSegment(slot, at, footer.value, k);
      }
    }

    method RecoverOneSegment(slot: nat) returns (status: Status)
      requires Restoring() && slot < |segments|
      modifies this`disk, this`segments, this`active, this`activeWriteOffset, this`writeBufOffset, this`sparseIndex
      modifies this`run, this`p
      ensures Restoring() && Within(old(run), run)
      ensures p == old(p).(d := p.d) && OnlySlot(old(p).d, p.d, slot) && SameLayout(old(p).d, p.d)
      ensures segments == old(segments)[slot := segments[slot]]
      ensures status == (if LoadHeader(old(p).d.files[slot], old(p).d.store, slot).Some? then Ok else InvalidState)
      ensures status == Ok ==> RecoveredAs(p, slot, segments[slot])
      ensures TopSealed(p) <==> TopSealed(old(p))
    {
      hide Inv, Allowed, Legal, Powered, Within, RecoveredAs, Restarting, LoadHeader, TopSealed;
      WithinChains();
      var header := LoadHeader(disk.files[slot], disk.store, slot);
      if header.None? {
        status := InvalidState;
        return;
      }
      status := Ok;
      HeaderKnown(p, state, slot, header.value);
      if header.value == 0 || (state.oldestGen != 0 && header.value < state.oldestGen) {
        segments := segments[slot := NoDesc];
        return;
      }
      status :=
        RecoverSegmentContents(slot, Ident(disk.store, slot, header.value), RankOf(p.l.first, slot, |p.d.files|));
    }

    /** A retained segment found without a footer, although a newer one exists, is scanned and sealed. */
    method SealRecoveredSegment(slot: nat, ghost k: nat)
      requires Restoring() && AllRecovered(p, segments, |segments|)
      requires k < |p.l.segs| && slot == IdentOf(p, k).slot && slot < |segments| && segments[slot].valid
      modifies this`disk, this`segments, this`active, this`activeWriteOffset, this`sparseIndex, this`run, this`p
      ensures Restoring() && Within(old(run), run) && AllRecovered(p, segments, |segments|)
      ensures p == old(p).(d := p.d) && OnlySlot(old(p).d, p.d, slot) && SameLayout(old(p).d, p.d)
      ensures segments == old(segments)[slot := segments[slot]] && segments[slot].sealed
    {
      hide Inv, Allowed, Legal, Powered, Within, RecoveredAs, Restarting, HasFooter, Sealable, SealStored, Scan,
        Sample;
      WithinChains();
      RestartShape(p, state);
      ContentsKnown(p, state, k);
      RestartSealable(p, state, k);
      var at := Ident(disk.store, slot, LoadHeader(disk.files[slot], disk.store, slot).value);
      var d, index := ScanSegment(disk.files[slot].cells, at, disk.g, true, None);
      active := at;
      activeWriteOffset := d.value.dataEnd;
      sparseIndex := index;
      segments := segments[slot := d.value];
      SealSegment(k);
      SealedRestart(old(p), p, state, k);
      OthersRecovered(old(p), p, old(segments), segments, slot, |segments|);
    }

    /** Generation and slot of the newest valid descriptor, 0 when there is none. */
    method HighestGeneration() returns (highest: nat, slot: nat)
      ensures IsHighest(segments, |segments|, highest, slot)
    {
      highest, slot := 0, 0;
      var i := 0;
      while i < |segments|
        invariant i <= |segments| && IsHighest(segments, i, highest, slot)
      {
        if segments[i].valid && segments[i].gen > highest {
          highest, slot := segments[i].gen, i;
        }
        i := i + 1;
      }
    }

    /** Recovers every slot; fails only on a slot without an intact header. */
    method RecoverSlots() returns (status: Status)
      requires Restoring()
      modifies this`disk, this`segments, this`active, this`activeWriteOffset, this`writeBufOffset, this`sparseIndex
      modifies this`run, this`p
      ensures Restoring() && Within(old(run), run) && p == old(p).(d := p.d) && SameLayout(old(p).d, p.d)
      ensures status == (if HeadersLoad(old(p).d) then Ok else InvalidState)
      ensures status == Ok ==> AllRecovered(p, segments, |segments|)
      ensures TopSealed(p) <==> TopSealed(old(p))
    {
      hide Inv, Allowed, Legal, Powered, Within, RecoveredAs, Restarting, LoadHeader, TopSealed;
      WithinChains();
      var slot := 0;
      while slot < |segments|
        invariant slot <= |segments| == |p.d.files| && Restoring() && Within(old(run), run)
        invariant p == old(p).(d := p.d) && SameLayout(old(p).d, p.d)
        invariant forall i :: slot <= i < |segments| ==> p.d.files[i] == old(p).d.files[i]
        invariant forall i :: 0 <= i < slot ==> LoadHeader(old(p).d.files[i], old(p).d.store, i).Some?
        invariant AllRecovered(p, segments, slot)
        invariant TopSealed(p) <==> TopSealed(old(p))
      {
        ghost var before := p;
        ghost var descs := segments;
        status := RecoverOneSegment(slot);
        if status != Ok {
          return;
        }
        RestartShape(before, state);
        OthersRecovered(before, p, descs, segments, slot, slot);
        slot := slot + 1;
      }
      status := Ok;
    }

    /** Seals every recovered segment but the newest. */
    method SealOlderSegments(highestSlot: nat)
      requires Restoring() && AllRecovered(p, segments, |segments|) && highestSlot == TopSlot(p.l, |p.d.files|)
      modifies this`disk, this`segments, this`active, this`activeWriteOffset, this`sparseIndex, this`run, this`p
      ensures Restoring() && Within(old(run), run) && AllRecovered(p, segments, |segments|)
      ensures p == old(p).(d := p.d) && SameLayout(old(p).d, p.d)
      ensures SealedBut(p, segments, |segments|)
      ensures TopSealed(p) <==> TopSealed(old(p))
    {
      hide Inv, Allowed, Legal, Powered, Within, RecoveredAs, Restarting, LoadHeader, TopSealed;
      WithinChains();
      var slot := 0;
      while slot < |segments|
        invariant slot <= |segments| && Restoring() && Within(old(run), run) && AllRecovered(p, segments, |segments|)
        invariant p == old(p).(d := p.d) && SameLayout(old(p).d, p.d)
        invariant SealedBut(p, segments, slot)
        invariant TopSealed(p) <==> TopSealed(old(p))
      {
        if segments[slot].valid && !segments[slot].sealed && slot != highestSlot {
          ValidRank(p, state, segments, slot);
          ghost var before := p;
          SealRecoveredSegment(slot, RankOf(p.l.first, slot, |p.d.files|));
          OtherSlotSealed(before, p, slot);
        }
        slot := slot + 1;
      }
    }

    /** Bytes in use, newest entry ID and newest generation over all valid descriptors. */
    method RecoveredTotals(ghost sealed: bool) returns (used: nat, newest: nat, highest: nat)
      requires Restarting(p, state) && SegmentsOk(p, segments, sealed)
      ensures used == Span(Visible(p)) && newest <= p.last && highest <= Top(p.l)
      ensures forall i :: 0 <= i < |segments| && segments[i].valid ==> segments[i].last <= newest
    {
      hide Inv, DescAt, Visible, Restarting;
      RestartFacts(p, state);
      used, newest, highest := 0, 0, 0;
      var slot := 0;
      while slot < |segments|
        invariant slot <= |segments| == |p.d.files|
        invariant used == SumSlots(p, slot) && newest <= p.last && highest <= Top(p.l)
        invariant forall i :: 0 <= i < slot && segments[i].valid ==> segments[i].last <= newest
      {
        DescTotals(p, slot, sealed);
        SumNextSlot(p, slot);
        var d := segments[slot];
        if d.valid {
          used := used + (d.dataEnd - HEADER_REGION);
          newest := if d.last > newest then d.last else newest;
          highest := if d.gen > highest then d.gen else highest;
        }
        slot := slot + 1;
      }
      SumAllSlots(p);
      VisibleUnbuffered(p);
    }

    /** Recomputes totals and counters from the descriptors. */
    method UpdateRecoveredManifestState(ghost sealed: bool)
      requires Restarting(p, state) && SegmentsOk(p, segments, sealed)
      requires active == TopIdent(p.d.store, |p.d.files|, p.l) && state.nextGen == Top(p.l) + 1
      requires state.boot == p.boot && state.sequence <= SEQUENCE_MASK
      modifies this`state, this`newestEntryId
      ensures StateOk(p, state) && state.sgen == old(state.sgen) && Restarting(p, state)
      ensures forall i :: 0 <= i < |segments| && segments[i].valid ==> segments[i].last <= newestEntryId
    {
      hide Inv, SegmentsOk, Visible, Restarting, IsOldest;
      RestartFacts(p, state);
      SameGeneration(p, state);
      var used, newest, highest := RecoveredTotals(sealed);
      state := state.(used := used, newest := newest);
      newestEntryId := newest;
      CountersWithin(state, newest, p.last, p.boot);
      state := CaughtUp(state, newest, highest);
      SegmentsNumbered(p, segments, sealed);
      var oldest := OldestGeneration();
      OldestIsBase(p, segments, sealed, oldest);
      state := state.(activeSlot := active.slot, activeGen := active.gen, oldestGen := oldest);
    }

    /** The newest segment is still open: a scan restores its descriptor, the write offset and the in-memory index. */
    method RecoverOpenSegment(slot: nat, at: Ident)
      requires Restoring() && AllRecovered(p, segments, |segments|) && SealedBut(p, segments, |segments|) &&
               writeBuf == []
      requires at == TopIdent(p.d.store, |p.d.files|, p.l) && slot == at.slot && !TopSealed(p)
      requires state.nextGen == Top(p.l) + 1 && state.boot == p.boot && state.sequence <= SEQUENCE_MASK
      modifies this`segments, this`active, this`activeWriteOffset, this`writeBufOffset, this`sparseIndex
      ensures RamOk(p, Memory().(state := Totalled(p, state)), false)
    {
      hide Inv, Allowed, Legal, Powered, AllRecovered, SealedBut, Restarting, HasFooter, RamOk, Scan, DescOf, Totalled;
      TopKnown(p, state, segments);
      var d, index := ScanSegment(disk.files[slot].cells, at, disk.g, true, None);
      OpenTop(p, state, segments, d.value,
              Memory().(segments := segments[slot := d.value], active := at, writeOffset := d.value.dataEnd,
                        bufOffset := d.value.dataEnd, index := index));
      active := at;
      segments := segments[slot := d.value];
      activeWriteOffset := d.value.dataEnd;
      writeBufOffset := activeWriteOffset;
      sparseIndex := index;
    }

    /** The newest segment is sealed: the next one is opened behind it. */
    method SucceedSealedSegment(at: Ident)
      requires Restoring() && AllRecovered(p, segments, |segments|) && SealedBut(p, segments, |segments|) &&
               writeBuf == []
      requires at == TopIdent(p.d.store, |p.d.files|, p.l) && TopSealed(p) && Ready(p.d, p.l)
      requires state.nextGen == Top(p.l) + 1 && state.boot == p.boot && state.sequence <= SEQUENCE_MASK
      modifies this
      ensures Running() && Restarting(p, state) && writeBuf == [] && Within(old(run), run) && SelectedFrom(old(p), p)
      ensures state.nextGen == Top(p.l) + 1 && state.boot == p.boot && state.sequence <= SEQUENCE_MASK &&
              Ready(p.d, p.l)
      ensures RamOk(p, Memory().(state := Totalled(p, state)), false)
    {
      hide Inv, Allowed, Legal, Powered, Within, AllRecovered, SealedBut, Restarting, Mirrors, SegmentsOk, StateOk,
        HasFooter, RamOk, Ready, DescOf, Totalled;
      RestartFacts(p, state);
      TopKnown(p, state, segments);
      SealedTop(p, state, segments);
      active := at;
      state := state.(activeSlot := at.slot, activeGen := at.gen);
      UpdateRecoveredManifestState(true);
      SealedTopMirrors(p, Memory());
      OpenNextSegment();
      OpenedMirrors(p, Memory());
    }

    /** Continues the newest segment if it is still open, or opens the next one if it was already sealed. */
    method SelectOrCreateActiveSegment()
      requires Restoring() && AllRecovered(p, segments, |segments|) && SealedBut(p, segments, |segments|) &&
               writeBuf == []
      requires state.nextGen == Top(p.l) + 1 && state.boot == p.boot && state.sequence <= SEQUENCE_MASK
      modifies this
      ensures Running() && Restarting(p, state) && writeBuf == [] && Within(old(run), run) && SelectedFrom(old(p), p)
      ensures state.nextGen == Top(p.l) + 1 && state.boot == p.boot && state.sequence <= SEQUENCE_MASK &&
              Ready(p.d, p.l)
      ensures RamOk(p, Memory().(state := Totalled(p, state)), false)
    {
      hide Inv, Allowed, Legal, Powered, AllRecovered, SealedBut, Restarting, HasFooter, RamOk, Ready, DescOf, Totalled,
        IsHighest, Scan;
      RestartFacts(p, state);
      var highest, slot := HighestGeneration();
      HighestIsTop(p, segments, highest, slot);
      ReadyAfterSealing(p, segments);
      TopKnown(p, state, segments);
      var at := Ident(disk.store, slot, highest);
      if segments[slot].sealed {
        SucceedSealedSegment(at);
      } else {
        RecoverOpenSegment(slot, at);
      }
    }

    /** Picks the segment to append to, recomputes the totals and commits. */
    method FinishRecovery()
      requires Restoring() && AllRecovered(p, segments, |segments|) && SealedBut(p, segments, |segments|) &&
               writeBuf == []
      requires state.nextGen == Top(p.l) + 1 && state.boot == p.boot && state.sequence <= SEQUENCE_MASK
      modifies this
      ensures Working(false) && writeBuf == [] && Within(old(run), run) && SelectedFrom(old(p), p)
    {
      hide Inv, Allowed, Legal, Powered, Within, Restarting, Mirrors, RamOk, Ready, SegmentsOk, StateOk;
      WithinChains();
      SelectOrCreateActiveSegment();
      RamSegments(p, Memory().(state := Totalled(p, state)), false);
      ghost var before := Memory();
      UpdateRecoveredManifestState(false);
      RestoredMirrors(p, before, Memory());
      CommitRam(p, Memory(), false);
      Commit();
    }

    method RecoverAllSegments() returns (status: Status)
      requires Restoring() && writeBuf == [] && state.nextGen <= Top(p.l) + 1 && state.boot == p.boot &&
               state.sequence <= SEQUENCE_MASK
      modifies this
      ensures Running() && Within(old(run), run)
      ensures status == (if HeadersLoad(old(p).d) then Ok else InvalidState)
      ensures status == Ok ==> Working(false) && writeBuf == [] && SelectedFrom(old(p), p)
    {
      hide Inv, Allowed, Legal, Powered, Within, RecoveredAs, Restarting, Mirrors;
      WithinChains();
      RestartFacts(p, state);
      status := RecoverSlots();
      if status != Ok {
        return;
      }
      var highest, slot := HighestGeneration();
      HighestIsTop(p, segments, highest, slot);
      if highest == 0 {
        assert false;
      }
      SameGeneration(p, state);
      state := state.(activeSlot := slot, activeGen := highest,
                      nextGen := if state.nextGen <= highest then highest + 1 else state.nextGen);
      SealOlderSegments(slot);
      FinishRecovery();
    }

    // ---------- Starting and calling the store ----------

    /** A device about to be switched on, with whatever its past left on the disk. */
    constructor (disk: Disk, bufferSize: nat, ghost past: Trace)
      requires Legal(past) && past.p.mode == Down && past.p.d == disk
      ensures Running() && run == past && this.past == past && p == past.p && this.bufferSize == bufferSize
      ensures this.disk == disk && writeBuf == []
    {
      this.disk, this.bufferSize, this.past, this.run, this.p := disk, bufferSize, past, past, past.p;
      state := Super(0, 0, 0, 0, 0, 0, 0, 0, 0);
      segments, active := [], Ident(0, 0, 0);
      activeWriteOffset, writeBuf, writeBufOffset, sparseIndex, newestEntryId := 0, [], 0, [], 0;
    }

    /** Recovers the store, raises the boot counter and records the boot. It succeeds unless some slot has no intact
        header or the boot counter is exhausted. Everything recovered stays readable, with the boot event behind it,
        except that a full store loses its oldest generation when a segment has to be opened for the event. */
    method Init(resetReason: seq<byte>, now: U64) returns (status: Status)
      requires Running() && p.mode == Down && writeBuf == [] && |resetReason| == 8
      modifies this
      ensures Running() && Within(old(run), run)
      ensures status == Ok <==> HeadersLoad(old(disk)) && old(p).boot < BOOT_MASK
      ensures status == Ok ==> Valid() && p.boot == old(p).boot + 1 && p.buf == [] && SameLayout(old(p).d, p.d)
      ensures status == Ok ==> OnTime(p, now) && state.sequence == 1 && SameLayout(old(disk), disk)
      ensures status == Ok ==> exists e :: BootEvent(old(p), p, e) && e.payload == resetReason && e.uptime == now
    {
      hide Inv, Allowed, Legal, Powered, Within, Restarting, Mirrors, OnTime, HeadersLoad, SelectedFrom, Appended,
           BootEvent, Turns, Top, Evict;
      WithinChains();
      DownFacts(run, p);
      PowerUp();
      status := RecoverAllSegments();
      if status != Ok {
        return;
      }

      ghost var selected := p;
      SelectedHistory(old(p), p);
      MirrorReady(p, Memory(), false);
      CommitRam(p, Memory(), false);
      Commit();
      MirrorReady(p, Memory(), false);
      if state.boot >= BOOT_MASK {
        status := InvalidState;
        return;
      }
      BootCommit(p, Memory());
      state := state.(boot := state.boot + 1, sequence := 0);
      Commit();
      NewBootOnTime(p, Memory(), now);
      MirrorReady(p, Memory(), false);
      ghost var booted := p;
      var e;
      status, e := AppendEntryUnchecked(ENTRY_BOOT_EVENT, resetReason, now, true);
      AppendedOnTime(booted, p, true, e, ENTRY_BOOT_EVENT, resetReason, now);
      BootRecorded(old(p), selected, booted, p, e, resetReason, now);
    }

    /** Loads the superblock and prepares the tables that recovery fills. */
    method PowerUp()
      requires Running() && p.mode == Down && writeBuf == []
      modifies this`state, this`segments, this`run, this`p
      ensures Restoring() && p == PoweredOn(old(p)) && Within(old(run), run)
      ensures state.nextGen <= Top(p.l) + 1 && state.boot == p.boot && state.sequence <= SEQUENCE_MASK
    {
      LegalInv(run);
      hide Inv, Restarting;
      PowerOnRestarts(p);
      var loaded := LoadSuper(disk);
      state := loaded.value;
      segments := seq(|disk.files|, _ => NoDesc);
      run, p := Then(run, PowerOn, PoweredOn(p)), PoweredOn(p);
    }

    method AppendEntry(typ: nat, payload: seq<byte>, now: nat, forceFlush: bool)
      returns (status: Status, e: Option<Entry>)
      requires Valid() && OnTime(p, now)
      modifies this
      ensures Valid() && Within(old(run), run)
      ensures Appended(old(p), p, status == Ok, e, typ, payload, now)
      ensures status == if typ >= ENTRY_RESERVED_START || |payload| > SIZE_MAX then InvalidArg
                        else AppendStatus(EntrySize(|payload|), old(disk).g, old(state))
      ensures status == InvalidArg || status == InvalidSize ==> p == old(p)
      ensures Remains(old(p), p, if e.Some? then [e.value] else []) && OnTime(p, now)
      ensures state.sequence == old(state.sequence) + if status == Ok then 1 else 0
      ensures Top(p.l) == Top(old(p).l) + if status == InvalidArg then 0 else Turns(old(p), EntrySize(|payload|))
      ensures status == Ok && forceFlush ==> p.buf == []
      ensures Top(p.l) == Top(old(p).l) ==> UnlockedSince(old(run), run)
    {
      hide Inv, Allowed, Legal, Powered, Within, Mirrors, OnTime, Quiet, UnlockedSince, Top, Contents, Remains;
      WithinChains();
      UnlockedChains();
      if typ >= ENTRY_RESERVED_START || |payload| > SIZE_MAX {
        MirrorSlots(p, Memory(), false);
        QuietIsReflexive(p);
        QuietAppendsNothing(p, p, false, typ, payload, now);
        status, e := InvalidArg, None;
        return;
      }
      status, e := AppendEntryUnchecked(typ, payload, now, forceFlush);
      AppendedOnTime(old(p), p, status == Ok, e, typ, payload, now);
    }

    /** Commits the superblock as it stands. */
    method Checkpoint()
      requires Valid()
      modifies this`disk, this`state, this`run, this`p
      ensures Valid() && Within(old(run), run) && p == old(p).(d := p.d) &&
              Memory() == old(Memory()).(state := NextSuper(old(state)))
      ensures UnlockedSince(old(run), run)
    {
      hide Inv, Allowed, Legal, Powered, Within, Mirrors, Unlocked, UnlockedSince;
      WithinChains();
      UnlockedChains();
      CommitRam(p, Memory(), false);
      Commit();
    }

    method FlushWrite()
      requires Valid()
      modifies this
      ensures Valid() && Within(old(run), run) && p.buf == []
      ensures p == Settled(old(p)).(d := p.d) && segments == old(segments)
      ensures UnlockedSince(old(run), run)
    {
      hide Inv, Allowed, Legal, Powered, Within, UnlockedSince;
      MirrorReady(p, Memory(), false);
      Flush();
      MirrorReady(p, Memory(), false);
    }
  }
}
