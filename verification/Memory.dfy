/** What the store keeps in memory, and how it must mirror the durable log. */
module Memory {
  import opened Layout
  import opened Segment
  import opened Device
  import opened Protocol
  import opened Runs

  datatype Ram = Ram(state: Super, segments: seq<Desc>, active: Ident, writeOffset: nat, buf: seq<Entry>,
                     bufOffset: nat, index: seq<IndexItem>, newest: nat)

  /** Entries of the newest segment, buffered ones included. */
  function TopRun(p: P): seq<Entry> { LastSeg(p.l) + p.buf }

  function IdentOf(p: P, k: nat): Ident { Ident(p.d.store, SlotAt(p.l.first, k, |p.d.files|), p.l.base + k) }

  /** The descriptor slot i must have: by rank of its generation, all but the newest sealed. */
  function DescAt(p: P, i: nat, sealed: bool): Desc
  {
    var k := RankOf(p.l.first, i, |p.d.files|);
    var at := Ident(p.d.store, i, p.l.base + k);
    if k + 1 < |p.l.segs| then DescOf(at, p.l.segs[k], true, IndexCount(|p.l.segs[k]|))
    else if k + 1 == |p.l.segs| then DescOf(at, TopRun(p), sealed, IndexCount(|TopRun(p)|))
    else NoDesc
  }

  ghost predicate SegmentsOk(p: P, segments: seq<Desc>, sealed: bool)
  {
    |segments| == |p.d.files| && forall i :: 0 <= i < |segments| ==> segments[i] == DescAt(p, i, sealed)
  }

  /** The in-memory superblock: its generations and counters agree with the log, and used
      size is the total of all entries. */
  ghost predicate StateOk(p: P, s: Super)
  {
    && s.oldestGen == p.l.base
    && s.activeGen == Top(p.l)
    && s.activeSlot == TopSlot(p.l, |p.d.files|)
    && s.nextGen == Top(p.l) + 1
    && s.boot == p.boot
    && s.sequence <= SEQUENCE_MASK
    && s.used == Span(Visible(p))
  }

  ghost predicate RamOk(p: P, r: Ram, sealed: bool)
  {
    && Shape(p.l, |p.d.files|)
    && StateOk(p, r.state)
    && SegmentsOk(p, r.segments, sealed)
    && r.active == TopIdent(p.d.store, |p.d.files|, p.l)
    && r.buf == p.buf
    && (p.buf != [] ==> r.bufOffset == End(LastSeg(p.l)))
    && (!sealed ==> r.writeOffset == End(TopRun(p)) && r.index == Sample(TopRun(p)))
    && (sealed <==> HasFooter(p.d.files[TopSlot(p.l, |p.d.files|)], r.active))
  }

  ghost predicate Synced(p: P, s: Super)
  {
    LoadSuper(p.d).Some? && s.sgen == LoadSuper(p.d).value.sgen
  }

  /** Powered, consistent on disk, and mirrored in memory; `sealed` tells whether the newest segment has its footer. */
  ghost predicate Mirrors(p: P, r: Ram, sealed: bool)
  {
    Inv(p) && p.mode != Down && Synced(p, r.state) && RamOk(p, r, sealed) && Ready(p.d, p.l)
  }

  lemma InvShape(p: P)
    requires Inv(p)
    ensures Shape(p.l, |p.d.files|)
  {
  }

  lemma SameBuffer(p: P, r: Ram, sealed: bool)
    requires Mirrors(p, r, sealed)
    ensures r.buf == p.buf
  {
  }

  /** Writes never change the number of slots, the store identity or the geometry. */
  predicate SameLayout(d: Disk, d': Disk)
  {
    |d'.files| == |d.files| && d'.store == d.store && d'.g == d.g
  }

  lemma AfterSameLayout(p: P, op: Op)
    requires OpInRange(op, |p.d.files|)
    ensures SameLayout(p.d, After(p, op).d)
  {
  }

  // ---------- Superblock commits ----------

  function NextSuper(s: Super): Super { s.(sgen := s.sgen + 1) }

  function CommitOp(s: Super): Op { WriteSuper((s.sgen + 1) % 2, NextSuper(s)) }

  lemma CommitSyncs(p: P, s: Super)
    requires Inv(p) && Allowed(p, CommitOp(s))
    ensures Synced(After(p, CommitOp(s)), NextSuper(s))
  {
    SuperAtomic(p.d, p.l, p.boot, (s.sgen + 1) % 2, NextSuper(s), Some(NextSuper(s)));
  }

  /** A superblock that matches the log may always be committed. */
  lemma CommitAllowed(p: P, s: Super)
    requires Inv(p) && p.mode != Down && Synced(p, s)
    requires s.oldestGen == p.l.base && s.activeGen == Top(p.l) && s.nextGen == Top(p.l) + 1 &&
             s.activeSlot == TopSlot(p.l, |p.d.files|)
    requires s.sequence <= SEQUENCE_MASK
    requires s.boot == p.boot || (p.mode == Recovering && s.boot == p.boot + 1 <= BOOT_MASK && Ready(p.d, p.l))
    ensures Allowed(p, CommitOp(s))
    ensures var q := After(p, CommitOp(s));
      q == p.(d := q.d, boot := s.boot, mode := if s.boot > p.boot then Live else p.mode) &&
      q.d.files == p.d.files && q.d.store == p.d.store && q.d.g == p.d.g
  {
    RankSlot(p.l, |p.l.segs| - 1, |p.d.files|);
  }

  /** Nothing in memory depends on the superblock copies on disk. */
  lemma RamIgnoresSuper(p: P, q: P, r: Ram, sealed: bool)
    requires RamOk(p, r, sealed)
    requires q.l == p.l && q.buf == p.buf && q.d.files == p.d.files && q.d.store == p.d.store
    ensures RamOk(q, r.(state := r.state.(boot := q.boot)), sealed)
    ensures q.boot == p.boot ==> RamOk(q, r, sealed)
  {
  }

  /** Committing the superblock that mirrors the log changes nothing but the superblock copies. */
  lemma CommitRam(p: P, r: Ram, sealed: bool)
    requires Mirrors(p, r, sealed)
    ensures OpInRange(CommitOp(r.state), |p.d.files|) && Allowed(p, CommitOp(r.state)) && Unlocked(p, CommitOp(r.state))
    ensures var q := After(p, CommitOp(r.state));
      q == p.(d := q.d) && q.d.files == p.d.files && Mirrors(q, r.(state := NextSuper(r.state)), sealed)
  {
    hide SlotsOk, Ordered, IdsWithin, TopIssued, PendingOk, IndexMatches, SegmentsOk;
    CommitAllowed(p, r.state);
    var q := After(p, CommitOp(r.state));
    RamIgnoresSuper(p, q, r, sealed);
    CommitSyncs(p, r.state);
    IoKeeps(p, CommitOp(r.state));
    SuperFrame(p.d, p.l, p.boot, p.buf, (r.state.sgen + 1) % 2, Some(NextSuper(r.state)));
  }

  // ---------- Flush ----------

  function FlushOp(p: P): Op { WriteData(TopSlot(p.l, |p.d.files|), End(LastSeg(p.l)), p.buf) }

  lemma FlushAllowed(p: P)
    requires Inv(p) && p.mode == Live && p.buf != []
    ensures Allowed(p, FlushOp(p))
    ensures var q := After(p, FlushOp(p));
      q.l == Extend(p.l, p.buf) && q.buf == [] && q.hist == p.hist + p.buf && LoadSuper(q.d) == LoadSuper(p.d)
  {
    RankSlot(p.l, |p.l.segs| - 1, |p.d.files|);
  }

  lemma FlushedVisible(p: P)
    requires p.l.segs != []
    ensures Visible(p.(l := Extend(p.l, p.buf), buf := [])) == Visible(p)
  {
    FlatExtend(p.l, p.buf);
  }

  /** Memory once the buffer has been written out. */
  function Emptied(r: Ram): Ram { r.(buf := [], bufOffset := r.writeOffset) }

  /** The state once every pending entry is durable. */
  function Settled(p: P): P
  {
    if p.buf == [] then p else p.(l := Extend(p.l, p.buf), buf := [], hist := p.hist + p.buf)
  }

  lemma MirrorShape(p: P, r: Ram, sealed: bool)
    requires Mirrors(p, r, sealed)
    ensures p.l.segs != []
  {
  }

  lemma SettledTop(p: P)
    requires p.l.segs != []
    ensures LastSeg(Settled(p).l) == TopRun(p)
  {
    assert p.buf == [] ==> TopRun(p) == LastSeg(p.l);
  }

  lemma FlushRam(p: P, r: Ram)
    requires Mirrors(p, r, false) && p.mode == Live && r.buf != []
    ensures OpInRange(FlushOp(p), |p.d.files|) && Allowed(p, FlushOp(p)) && Unlocked(p, FlushOp(p))
    ensures FlushOp(p) == WriteData(r.active.slot, r.bufOffset, r.buf)
    ensures var q := After(p, FlushOp(p)); Mirrors(q, Emptied(r), false) && q == Settled(p).(d := q.d)
  {
    FlushAllowed(p);
    IoKeeps(p, FlushOp(p));
    FlushedVisible(p);
    var q := After(p, FlushOp(p));
    assert LastSeg(q.l) == TopRun(p);
    assert TopRun(q) == TopRun(p);
    FlushDescs(p, q, r.segments);
  }

  lemma FlushDescs(p: P, q: P, segments: seq<Desc>)
    requires Shape(p.l, |p.d.files|) && SegmentsOk(p, segments, false)
    requires q.l == Extend(p.l, p.buf) && q.buf == [] && |q.d.files| == |p.d.files| && q.d.store == p.d.store
    ensures SegmentsOk(q, segments, false)
  {
    assert LastSeg(q.l) == TopRun(p);
    assert TopRun(q) == TopRun(p);
    forall i | 0 <= i < |segments| ensures segments[i] == DescAt(q, i, false) {
      assert segments[i] == DescAt(p, i, false);
    }
  }

  // ---------- Accepting an entry ----------

  /** Memory after an entry has been taken in and accounted for. */
  function Accounted(r: Ram, e: Entry): Ram
    requires r.active.slot < |r.segments|
  {
    var d := r.segments[r.active.slot];
    var index := if d.count % STRIDE == 0 then r.index + [ItemOf(e, r.writeOffset)] else r.index;
    var d' := d.(first := if d.count == 0 then e.id else d.first, last := e.id, count := d.count + 1,
                 dataEnd := r.writeOffset + Size(e), indexCount := |index|);
    r.(segments := r.segments[r.active.slot := d'], index := index, writeOffset := d'.dataEnd, newest := e.id,
       buf := r.buf + [e], bufOffset := if r.buf == [] then r.writeOffset else r.bufOffset,
       state := r.state.(used := r.state.used + Size(e), newest := e.id))
  }

  lemma AcceptRun(es: seq<Entry>, e: Entry)
    ensures End(es + [e]) == End(es) + Size(e)
    ensures FirstId(es + [e]) == (if es == [] then e.id else FirstId(es)) && LastId(es + [e]) == e.id
    ensures Sample(es + [e]) == if |es| % STRIDE == 0 then Sample(es) + [ItemOf(e, End(es))] else Sample(es)
  {
    SampleExtend(es, e);
    OffStep(es + [e], |es|);
    OffPrefix(es, [e], |es|);
  }

  lemma AcceptSegments(p: P, r: Ram, e: Entry)
    requires RamOk(p, r, false) && r.active.slot < |r.segments|
    ensures SegmentsOk(p.(buf := p.buf + [e], last := e.id), Accounted(r, e).segments, false)
  {
    var r' := Accounted(r, e);
    forall i | 0 <= i < |r'.segments| ensures r'.segments[i] == DescAt(p.(buf := p.buf + [e], last := e.id), i, false) {
      AcceptDesc(p, r, e, i);
    }
  }

  lemma AcceptDesc(p: P, r: Ram, e: Entry, i: nat)
    requires RamOk(p, r, false) && r.active.slot < |r.segments| && i < |r.segments|
    ensures Accounted(r, e).segments[i] == DescAt(p.(buf := p.buf + [e], last := e.id), i, false)
  {
    hide StateOk, HasFooter, Size, Span, Off, Sample;
    AcceptRun(TopRun(p), e);
    assert TopRun(p.(buf := p.buf + [e], last := e.id)) == TopRun(p) + [e];
    RankSlot(p.l, |p.l.segs| - 1, |p.d.files|);
    assert r.segments[i] == DescAt(p, i, false);
    SlotRank(p.l, i, |p.d.files|);
  }

  lemma AcceptVisible(p: P, e: Entry)
    ensures Span(Visible(p.(buf := p.buf + [e], last := e.id))) == Span(Visible(p)) + Size(e)
  {
    var all := Visible(p) + [e];
    assert Visible(p.(buf := p.buf + [e], last := e.id)) == all;
    assert all[..|all| - 1] == Visible(p);
  }

  lemma TopDesc(p: P, r: Ram, sealed: bool)
    requires RamOk(p, r, sealed)
    ensures r.active.slot < |r.segments|
    ensures r.segments[r.active.slot] == DescOf(r.active, TopRun(p), sealed, IndexCount(|TopRun(p)|))
  {
    RankSlot(p.l, |p.l.segs| - 1, |p.d.files|);
    assert r.segments[r.active.slot] == DescAt(p, r.active.slot, sealed);
  }

  lemma AcceptOffsets(p: P, r: Ram, e: Entry)
    requires r.writeOffset == End(TopRun(p)) && r.buf == p.buf && r.index == Sample(TopRun(p))
    requires p.buf != [] ==> r.bufOffset == End(LastSeg(p.l))
    requires r.active.slot < |r.segments| && r.segments[r.active.slot].count == |TopRun(p)|
    ensures var q := p.(buf := p.buf + [e], last := e.id);
      var r' := Accounted(r, e);
      r'.writeOffset == End(TopRun(q)) && r'.index == Sample(TopRun(q)) && r'.bufOffset == End(LastSeg(p.l))
  {
    AcceptRun(TopRun(p), e);
    assert TopRun(p.(buf := p.buf + [e], last := e.id)) == TopRun(p) + [e];
    assert p.buf == [] ==> TopRun(p) == LastSeg(p.l);
  }

  lemma AcceptRam(p: P, r: Ram, e: Entry)
    requires RamOk(p, r, false)
    ensures r.active.slot < |r.segments|
    ensures RamOk(p.(buf := p.buf + [e], last := e.id), Accounted(r, e), false)
  {
    var q := p.(buf := p.buf + [e], last := e.id);
    TopDesc(p, r, false);
    AcceptSegments(p, r, e);
    AcceptVisible(p, e);
    AcceptOffsets(p, r, e);
    assert StateOk(q, Accounted(r, e).state);
  }

  /** A 64-bit timer that has not run backwards in this boot. */
  ghost predicate OnTime(p: P, now: nat)
  {
    now <= U64_MAX && forall i :: 0 <= i < |p.hist + p.buf| && Boot((p.hist + p.buf)[i].id) == p.boot ==>
      (p.hist + p.buf)[i].uptime <= now
  }

  function Taken(p: P, e: Entry): P { p.(buf := p.buf + [e], last := e.id) }

  /** An entry with the next ID, stamped now, that fits behind the write offset may be accepted. */
  lemma TakeIn(p: P, r: Ram, e: Entry)
    requires Mirrors(p, r, false) && p.mode == Live && OnTime(p, e.uptime)
    requires e.at == r.active && p.last < e.id && Boot(e.id) == r.state.boot && Sequenced(e.id)
    requires r.writeOffset + Size(e) <= p.d.g.dataEnd
    ensures Acceptable(p, e) && r.active.slot < |r.segments|
    ensures Mirrors(Taken(p, e), Accounted(r, e), false)
  {
    AcceptRam(p, r, e);
    AcceptKeeps(p, e);
  }

  /** The ID sequence may advance without touching anything the log depends on. */
  lemma AdvanceSequence(p: P, r: Ram, sealed: bool, sequence: nat, newest: nat)
    requires Mirrors(p, r, sealed) && sequence <= SEQUENCE_MASK
    ensures Mirrors(p, r.(state := r.state.(sequence := sequence, newest := newest), newest := newest), sealed)
  {
  }

  lemma OffsetUnused(p: P, r: Ram, sealed: bool, offset: nat)
    requires Mirrors(p, r, sealed) && r.buf == []
    ensures Mirrors(p, r.(bufOffset := offset), sealed)
  {
  }

  // ---------- Sealing the segment of rank k ----------

  /** d' differs from d at most in this slot's file. */
  predicate OnlySlot(d: Disk, d': Disk, slot: nat)
  {
    && d' == d.(files := d'.files)
    && |d'.files| == |d.files|
    && forall i :: 0 <= i < |d.files| && i != slot ==> d'.files[i] == d.files[i]
  }

  function FileOf(p: P, k: nat): SlotFile
    requires IdentOf(p, k).slot < |p.d.files|
  {
    p.d.files[IdentOf(p, k).slot]
  }

  lemma RankInRange(p: P, k: nat)
    requires Inv(p) && k < |p.l.segs|
    ensures IdentOf(p, k).slot < |p.d.files|
  {
    RankSlot(p.l, k, |p.d.files|);
  }

  function IndexOp(p: P, k: nat): Op
    requires k < |p.l.segs|
  {
    WriteIndex(IdentOf(p, k).slot, Sample(p.l.segs[k]))
  }

  function FooterOp(p: P, k: nat, copy: nat): Op
    requires k < |p.l.segs|
  {
    WriteFooter(IdentOf(p, k).slot, copy, FooterOf(IdentOf(p, k), p.l.segs[k]))
  }

  ghost predicate IndexStored(p: P, k: nat)
    requires k < |p.l.segs|
  {
    IdentOf(p, k).slot < |p.d.files| && IndexMatches(FileOf(p, k), FooterOf(IdentOf(p, k), p.l.segs[k]))
  }

  ghost predicate SealStored(p: P, k: nat)
    requires k < |p.l.segs|
  {
    IndexStored(p, k) && HasFooter(FileOf(p, k), IdentOf(p, k))
  }

  ghost predicate Sealable(p: P, k: nat)
  {
    && Inv(p) && p.mode != Down && k < |p.l.segs| && p.buf == []
    && IdentOf(p, k).slot < |p.d.files|
  }

  predicate IsTop(p: P, k: nat) { k + 1 == |p.l.segs| }

  lemma WrittenIndexMatches(file: SlotFile, at: Ident, es: seq<Entry>)
    ensures IndexMatches(file.(index := OverwriteIndex(file.index, Sample(es))), FooterOf(at, es))
  {
  }

  lemma StoreIndex(p: P, k: nat)
    requires Sealable(p, k) && (p.mode == Live ==> !HasFooter(FileOf(p, k), IdentOf(p, k)))
    ensures OpInRange(IndexOp(p, k), |p.d.files|) && Allowed(p, IndexOp(p, k)) &&
            (IsTop(p, k) ==> Unlocked(p, IndexOp(p, k)))
    ensures var q := After(p, IndexOp(p, k));
      q == p.(d := q.d) && Sealable(q, k) && IndexStored(q, k) && OnlySlot(p.d, q.d, IdentOf(p, k).slot)
  {
    hide Inv, HasFooter, Sample, FooterOf, IndexMatches, OverwriteIndex;
    InvShape(p);
    RankSlot(p.l, k, |p.d.files|);
    IoKeeps(p, IndexOp(p, k));
    WrittenIndexMatches(FileOf(p, k), IdentOf(p, k), p.l.segs[k]);
  }

  lemma EmptyIndexStored(p: P, k: nat)
    requires k < |p.l.segs| && IdentOf(p, k).slot < |p.d.files| && Sample(p.l.segs[k]) == []
    ensures IndexStored(p, k)
  {
  }

  lemma StoreFooter(p: P, k: nat, copy: nat)
    requires Sealable(p, k) && copy < 2 && IndexStored(p, k)
    ensures OpInRange(FooterOp(p, k, copy), |p.d.files|) && Allowed(p, FooterOp(p, k, copy))
    ensures IsTop(p, k) ==> Unlocked(p, FooterOp(p, k, copy))
    ensures var q := After(p, FooterOp(p, k, copy));
      q == p.(d := q.d) && Sealable(q, k) && SealStored(q, k) && OnlySlot(p.d, q.d, IdentOf(p, k).slot)
  {
    RankSlot(p.l, k, |p.d.files|);
    IoKeeps(p, FooterOp(p, k, copy));
  }

  /** The footer built from a descriptor and the in-memory index is the one the run calls for. */
  lemma FooterFromDesc(at: Ident, es: seq<Entry>, d: Desc, index: seq<IndexItem>)
    requires d == DescOf(at, es, d.sealed, d.indexCount) && index == Sample(es)
    ensures Footer(at, d.first, d.last, d.count, d.dataEnd, |index|, index) == FooterOf(at, es)
    ensures d.(sealed := true, indexCount := |index|) == DescOf(at, es, true, IndexCount(|es|))
  {
  }

  function TopRank(p: P): nat { if p.l.segs == [] then 0 else |p.l.segs| - 1 }

  lemma TopSealable(p: P, r: Ram)
    requires Mirrors(p, r, false) && r.buf == []
    ensures Sealable(p, TopRank(p)) && TopRank(p) < |p.l.segs| && p.l.segs[TopRank(p)] == LastSeg(p.l)
    ensures !HasFooter(FileOf(p, TopRank(p)), IdentOf(p, TopRank(p)))
    ensures r.active == IdentOf(p, TopRank(p)) && r.active.slot < |r.segments|
    ensures r.index == Sample(LastSeg(p.l))
    ensures r.segments[r.active.slot] == DescOf(r.active, LastSeg(p.l), false, IndexCount(|LastSeg(p.l)|))
  {
    hide Ready, Synced, StateOk, SegmentsOk, HistoryOk, LiveOk, SlotsOk, Ordered, IdsWithin, TopIssued, Sample, DescOf;
    RankSlot(p.l, |p.l.segs| - 1, |p.d.files|);
    TopDesc(p, r, false);
    assert TopRun(p) == LastSeg(p.l);
  }

  lemma SealedReady(p: P, q: P)
    requires Shape(p.l, |p.d.files|) && Ready(p.d, p.l) && q == p.(d := q.d) && SealStored(q, TopRank(q))
    requires OnlySlot(p.d, q.d, TopSlot(p.l, |p.d.files|))
    ensures Ready(q.d, q.l)
  {
    forall k | 0 <= k < |q.l.segs| ensures SegReady(q.d, q.l, k) {
      RankSlot(p.l, k, |p.d.files|);
      RankSlot(p.l, |p.l.segs| - 1, |p.d.files|);
      assert SegReady(p.d, p.l, k);
    }
  }

  lemma SealedSegments(p: P, q: P, segments: seq<Desc>)
    requires SegmentsOk(p, segments, false) && Shape(p.l, |p.d.files|) && p.buf == []
    requires q == p.(d := q.d) && SameLayout(p.d, q.d)
    ensures var at := TopIdent(p.d.store, |p.d.files|, p.l);
      && at.slot < |segments|
      && SegmentsOk(q, segments[at.slot := DescOf(at, LastSeg(p.l), true, IndexCount(|LastSeg(p.l)|))], true)
  {
    hide DescOf, IndexCount;
    RankSlot(p.l, |p.l.segs| - 1, |p.d.files|);
    assert TopRun(p) == LastSeg(p.l);
    var slot := TopSlot(p.l, |p.d.files|);
    forall i | 0 <= i < |segments| && i != slot ensures DescAt(q, i, true) == segments[i] {
      assert segments[i] == DescAt(p, i, false);
      SlotRank(p.l, i, |p.d.files|);
    }
  }

  lemma SealRam(p: P, q: P, r: Ram)
    requires Mirrors(p, r, false) && r.buf == [] && r.active.slot < |r.segments|
    requires q == p.(d := q.d) && Sealable(q, TopRank(q)) && SealStored(q, TopRank(q))
    requires OnlySlot(p.d, q.d, r.active.slot)
    ensures var sealed := DescOf(r.active, LastSeg(p.l), true, IndexCount(|LastSeg(p.l)|));
      Mirrors(q, r.(segments := r.segments[r.active.slot := sealed]), true)
  {
    hide Inv, Shape, Ready, SegmentsOk, IndexStored, DescOf, IndexCount, Span, TopRun;
    InvShape(p);
    InvShape(q);
    SealedReady(p, q);
    SealedSegments(p, q, r.segments);
  }

  // ---------- Retiring the oldest segment ----------

  /** The log once room has been made for another segment. */
  function Evict(l: Log, slots: nat): Log { if |l.segs| == slots then Retire(l, slots) else l }

  /** The slot that comes next is valid exactly when it holds the oldest segment of a full store. */
  lemma NextDesc(p: P, r: Ram)
    requires Mirrors(p, r, true)
    ensures |r.segments| == |p.d.files| && NextSlot(p.l, |p.d.files|) < |r.segments|
    ensures r.segments[NextSlot(p.l, |p.d.files|)].valid <==> |p.l.segs| == |p.d.files|
    ensures |p.l.segs| == |p.d.files| ==> NextSlot(p.l, |p.d.files|) == p.l.first && |p.l.segs| >= 2
    ensures |p.l.segs| <= |p.d.files|
  {
    hide Inv, Ready, Synced, StateOk, TopRun, IndexCount;
    InvShape(p);
    var i := NextSlot(p.l, |p.d.files|);
    assert r.segments[i] == DescAt(p, i, true);
  }

  function RetiredRam(p: P, r: Ram): Ram
    requires p.l.first < |r.segments|
  {
    var size := r.segments[p.l.first].dataEnd - HEADER_REGION;
    r.(segments := r.segments[p.l.first := NoDesc],
       state := r.state.(used := if r.state.used > size then r.state.used - size else 0, oldestGen := p.l.base + 1))
  }

  lemma RetireAllowed(p: P, s: Super, used: nat)
    requires Inv(p) && p.mode != Down && Synced(p, s) && StateOk(p, s) && |p.l.segs| >= 2 && p.buf == []
    requires p.mode == Live ==> LastSeg(p.l) != []
    ensures var op := CommitOp(s.(used := used, oldestGen := p.l.base + 1));
      OpInRange(op, |p.d.files|) && Allowed(p, op)
  {
    RankSlot(p.l, |p.l.segs| - 1, |p.d.files|);
  }

  lemma RetireUsed(p: P)
    requires p.l.segs != []
    ensures Span(Visible(p)) == Span(p.l.segs[0]) + Span(Visible(p.(l := Retire(p.l, |p.d.files|))))
  {
    FlatTail(p.l.segs);
    var q := p.(l := Retire(p.l, |p.d.files|));
    assert Visible(p) == p.l.segs[0] + Visible(q);
    SpanAppend(p.l.segs[0], Visible(q));
  }

  lemma OldestDesc(p: P, r: Ram)
    requires RamOk(p, r, true) && |p.l.segs| >= 2
    ensures p.l.first < |r.segments| && r.segments[p.l.first].valid
    ensures r.segments[p.l.first].dataEnd == DATA_START + Span(p.l.segs[0])
  {
    RankSlot(p.l, 0, |p.d.files|);
    assert r.segments[p.l.first] == DescAt(p, p.l.first, true);
    assert p.l.segs[0][..|p.l.segs[0]|] == p.l.segs[0];
  }

  lemma RetiredMirrors(p: P, q: P, r: Ram)
    requires RamOk(p, r, true) && |p.l.segs| >= 2 && p.l.first < |r.segments|
    requires q == p.(d := q.d, l := Retire(p.l, |p.d.files|)) && q.d.files == p.d.files && q.d.store == p.d.store
    ensures RamOk(q, RetiredRam(p, r), true)
  {
    RetireUsed(p);
    OldestDesc(p, r);
    RankSlot(p.l, |p.l.segs| - 1, |p.d.files|);
    RetireDescs(p, q, r);
  }

  lemma RetireReady(p: P, copy: nat, s: Super)
    requires Shape(p.l, |p.d.files|) && Ready(p.d, p.l) && |p.l.segs| >= 2
    ensures Shape(Retire(p.l, |p.d.files|), |p.d.files|) &&
            Ready(SetSuper(p.d, copy, Some(s)), Retire(p.l, |p.d.files|))
  {
    SuperFrame(p.d, p.l, p.boot, p.buf, copy, Some(s));
    ReadyRetires(SetSuper(p.d, copy, Some(s)), p.l);
  }

  lemma RetireCommit(p: P, s: Super)
    requires Inv(p) && p.mode != Down && Synced(p, s) && Ready(p.d, p.l) && |p.l.segs| >= 2
    requires s.oldestGen == p.l.base + 1 && s.boot == p.boot && OpInRange(CommitOp(s), |p.d.files|) &&
             Allowed(p, CommitOp(s))
    ensures var q := After(p, CommitOp(s));
      && q == p.(d := q.d, l := Retire(p.l, |p.d.files|)) && q.d.files == p.d.files && q.d.store == p.d.store
      && Inv(q) && Synced(q, NextSuper(s)) && Ready(q.d, q.l)
  {
    hide Inv, Ready, Allowed, LoadSuper, Retire;
    CommitSyncs(p, s);
    IoKeeps(p, CommitOp(s));
    InvShape(p);
    RetireReady(p, (s.sgen + 1) % 2, NextSuper(s));
  }

  /** Retirement: the commit that raises the oldest retained generation is what drops the segment. */
  lemma RetireRam(p: P, r: Ram)
    requires Mirrors(p, r, true) && |p.l.segs| >= 2 && p.buf == [] && (p.mode == Live ==> LastSeg(p.l) != [])
    ensures p.l.first < |r.segments| && r.segments[p.l.first].valid && r.segments[p.l.first].dataEnd >= HEADER_REGION
    ensures var r' := RetiredRam(p, r);
      var op := CommitOp(r'.state);
      && OpInRange(op, |p.d.files|) && Allowed(p, op)
      && var q := After(p, op);
         q == p.(d := q.d, l := Retire(p.l, |p.d.files|)) && q.d.files == p.d.files &&
           Mirrors(q, r'.(state := NextSuper(r'.state)), true)
  {
    OldestDesc(p, r);
    var r' := RetiredRam(p, r);
    RetireAllowed(p, r.state, r'.state.used);
    RetireCommit(p, r'.state);
    RetiredMirrors(p, After(p, CommitOp(r'.state)), r);
  }

  lemma RetireDesc(p: P, q: P, i: nat)
    requires Shape(p.l, |p.d.files|) && |p.l.segs| >= 2 && i < |p.d.files|
    requires q.l == Retire(p.l, |p.d.files|) && q.d.files == p.d.files && q.d.store == p.d.store && q.buf == p.buf
    ensures DescAt(q, i, true) == if i == p.l.first then NoDesc else DescAt(p, i, true)
  {
    SlotRank(p.l, i, |p.d.files|);
    var k := RankOf(p.l.first, i, |p.d.files|);
    assert k > 0 ==> RankOf(q.l.first, i, |p.d.files|) == k - 1;
    assert forall j :: 0 < j < |p.l.segs| ==> q.l.segs[j - 1] == p.l.segs[j];
    assert TopRun(q) == TopRun(p);
  }

  lemma RetireDescs(p: P, q: P, r: Ram)
    requires Shape(p.l, |p.d.files|) && SegmentsOk(p, r.segments, true) && |p.l.segs| >= 2
    requires q.l == Retire(p.l, |p.d.files|) && q.d.files == p.d.files && q.d.store == p.d.store && q.buf == p.buf
    requires p.l.first < |r.segments|
    ensures SegmentsOk(q, r.segments[p.l.first := NoDesc], true)
  {
    var segments := r.segments[p.l.first := NoDesc];
    forall i | 0 <= i < |segments| ensures segments[i] == DescAt(q, i, true) {
      RetireDesc(p, q, i);
    }
  }

  // ---------- Activating the next slot ----------

  function NextIdent(p: P): Ident { Ident(p.d.store, NextSlot(p.l, |p.d.files|), Top(p.l) + 1) }

  lemma EmptyDesc(at: Ident)
    ensures DescOf(at, [], false, 0) == Desc(true, false, at.slot, at.gen, 0, 0, 0, DATA_START, 0)
  {
  }

  function Opened(p: P): P { p.(l := Open(p.l)) }

  lemma FirstHeaderAllowed(p: P, r: Ram, at: Ident)
    requires Mirrors(p, r, true) && p.buf == [] && |p.l.segs| < |p.d.files| && at == NextIdent(p)
    ensures at.slot < |r.segments| == |p.d.files| && !HasFooter(p.d.files[at.slot], at) && Shape(p.l, |p.d.files|)
    ensures at.slot == NextSlot(p.l, |p.d.files|) &&
            HasFooter(p.d.files[TopSlot(p.l, |p.d.files|)], TopIdent(p.d.store, |p.d.files|, p.l))
    ensures OpInRange(WriteHeader(at.slot, 0, at), |p.d.files|) && Allowed(p, WriteHeader(at.slot, 0, at))
  {
    RankSlot(p.l, |p.l.segs|, |p.d.files|);
    assert SlotOk(p.d.g, p.d.store, |p.d.files|, at.slot, p.d.files[at.slot], p.l);
  }

  lemma FirstHeader(p: P, r: Ram, at: Ident)
    requires Mirrors(p, r, true) && p.buf == [] && |p.l.segs| < |p.d.files| && at == NextIdent(p)
    ensures at.slot < |r.segments| == |p.d.files|
    ensures var op := WriteHeader(at.slot, 0, at);
      && OpInRange(op, |p.d.files|) && Allowed(p, op)
      && var q := After(p, op);
         q == Opened(p).(d := q.d) && q.mode != Down && Inv(q) && Synced(q, r.state) && HeaderWritten(q, at) &&
           Ready(q.d, q.l)
  {
    hide Inv, RamOk, Allowed, Ready;
    FirstHeaderAllowed(p, r, at);
    RankSlot(p.l, |p.l.segs|, |p.d.files|);
    ReadyOpens(p.d, p.l, p.d.files[at.slot].(h0 := Some(at)));
    IoKeeps(p, WriteHeader(at.slot, 0, at));
  }

  predicate HeaderWritten(q: P, at: Ident)
  {
    && at == TopIdent(q.d.store, |q.d.files|, q.l) && at.slot < |q.d.files|
    && q.d.files[at.slot].h0 == Some(at) && !HasFooter(q.d.files[at.slot], at)
  }

  lemma SecondHeader(q: P, s: Super, at: Ident)
    requires Inv(q) && q.mode != Down && Synced(q, s) && HeaderWritten(q, at) && Ready(q.d, q.l)
    ensures OpInRange(WriteHeader(at.slot, 1, at), |q.d.files|) && Allowed(q, WriteHeader(at.slot, 1, at))
    ensures var q' := After(q, WriteHeader(at.slot, 1, at));
      && q' == q.(d := q'.d) && q'.d.store == q.d.store && |q'.d.files| == |q.d.files|
      && Inv(q') && Synced(q', s) && HeaderWritten(q', at) && Ready(q'.d, q'.l)
  {
    hide HistoryOk, PendingOk, SlotsOk, Ordered, IdsWithin, TopIssued, IndexMatches;
    RankSlot(q.l, |q.l.segs| - 1, |q.d.files|);
    assert SegReady(q.d, q.l, |q.l.segs| - 1);
    ReadyFrame(q.d, q.l, |q.l.segs| - 1, at.slot, q.d.files[at.slot].(h1 := Some(at)));
    IoKeeps(q, WriteHeader(at.slot, 1, at));
  }

  function ActivatedRam(r: Ram, at: Ident): Ram
    requires at.slot < |r.segments|
  {
    r.(segments := r.segments[at.slot := DescOf(at, [], false, 0)], active := at, writeOffset := DATA_START,
       bufOffset := DATA_START, buf := [], index := [],
       state := r.state.(activeSlot := at.slot, activeGen := at.gen, nextGen := at.gen + 1))
  }

  lemma ActivateRam(p: P, q: P, r: Ram)
    requires Mirrors(p, r, true) && p.buf == [] && |p.l.segs| < |p.d.files| && NextIdent(p).slot < |r.segments|
    requires q == Opened(p).(d := q.d) && |q.d.files| == |p.d.files| && q.d.store == p.d.store
    requires Inv(q) && Synced(q, r.state) && HeaderWritten(q, NextIdent(p)) && Ready(q.d, q.l)
    ensures Mirrors(q, ActivatedRam(r, NextIdent(p)), false)
  {
    FlatOpen(p.l);
    RankSlot(p.l, |p.l.segs|, |p.d.files|);
    ActivateDescs(p, q, r);
    assert TopRun(q) == [];
  }

  lemma ActivateDescs(p: P, q: P, r: Ram)
    requires Shape(p.l, |p.d.files|) && SegmentsOk(p, r.segments, true) && p.buf == [] && |p.l.segs| < |p.d.files|
    requires NextIdent(p).slot < |r.segments|
    requires q.l == Open(p.l) && |q.d.files| == |p.d.files| && q.d.store == p.d.store && q.buf == []
    ensures SegmentsOk(q, r.segments[NextIdent(p).slot := DescOf(NextIdent(p), [], false, 0)], false)
  {
    var at := NextIdent(p);
    RankSlot(p.l, |p.l.segs|, |p.d.files|);
    assert TopRun(q) == [];
    assert TopRun(p) == LastSeg(p.l);
    forall i | 0 <= i < |r.segments| ensures r.segments[at.slot := DescOf(at, [], false, 0)][i] == DescAt(q, i, false) {
      assert r.segments[i] == DescAt(p, i, true);
      SlotRank(p.l, i, |p.d.files|);
    }
  }

  // ---------- Reading generations off the descriptors ----------

  /** Least and greatest generation among valid descriptors, the latter with its slot; 0 when there is none. */
  ghost predicate IsOldest(segments: seq<Desc>, count: nat, oldest: nat)
    requires count <= |segments|
  {
    && (oldest == 0 ==> forall i :: 0 <= i < count ==> !segments[i].valid)
    && (oldest != 0 ==> exists i :: 0 <= i < count && segments[i].valid && segments[i].gen == oldest)
    && (forall i :: 0 <= i < count && segments[i].valid ==> oldest <= segments[i].gen)
  }

  lemma OldestIsBase(p: P, segments: seq<Desc>, sealed: bool, oldest: nat)
    requires Shape(p.l, |p.d.files|) && SegmentsOk(p, segments, sealed) && IsOldest(segments, |segments|, oldest)
    ensures oldest == p.l.base
  {
    RankSlot(p.l, 0, |p.d.files|);
    assert segments[p.l.first] == DescAt(p, p.l.first, sealed);
    if oldest != 0 {
      var i :| 0 <= i < |segments| && segments[i].valid && segments[i].gen == oldest;
      assert segments[i] == DescAt(p, i, sealed);
    }
  }

  predicate Numbered(segments: seq<Desc>)
  {
    forall i :: 0 <= i < |segments| && segments[i].valid ==> segments[i].gen >= 1
  }

  lemma SegmentsNumbered(p: P, segments: seq<Desc>, sealed: bool)
    requires Shape(p.l, |p.d.files|) && SegmentsOk(p, segments, sealed)
    ensures Numbered(segments)
  {
    forall i | 0 <= i < |segments| && segments[i].valid ensures segments[i].gen >= 1 {
      assert segments[i] == DescAt(p, i, sealed);
    }
  }

  lemma OldestAfterRetirement(p: P, r: Ram)
    requires Mirrors(p, r, true) && |p.l.segs| >= 2 && p.l.first < |r.segments|
    ensures Numbered(RetiredRam(p, r).segments)
    ensures var segments := RetiredRam(p, r).segments;
      forall oldest :: IsOldest(segments, |segments|, oldest) ==> oldest == p.l.base + 1
  {
    hide HistoryOk, LiveOk, SlotsOk, Ordered, IdsWithin, TopIssued, Visible, DescAt, Ready;
    var q := p.(l := Retire(p.l, |p.d.files|));
    var segments := RetiredRam(p, r).segments;
    RetireDescs(p, q, r);
    SegmentsNumbered(q, segments, true);
    forall oldest | IsOldest(segments, |segments|, oldest) ensures oldest == p.l.base + 1 {
      OldestIsBase(q, segments, true, oldest);
    }
  }

  // ---------- Rotation as a whole ----------

  /** A new empty segment, in place of the oldest one when every slot is in use. */
  function Rotated(p: P): P { p.(l := Open(Evict(p.l, |p.d.files|))) }

  function Successor(slot: nat, slots: nat): nat { if slot + 1 == slots then 0 else slot + 1 }

  lemma NextStep(p: P, r: Ram)
    requires Mirrors(p, r, true)
    ensures r.state.activeSlot < |r.segments| == |p.d.files|
    ensures Successor(r.state.activeSlot, |r.segments|) == NextSlot(p.l, |p.d.files|)
    ensures r.state.nextGen == Top(p.l) + 1
  {
    RankSlot(p.l, |p.l.segs| - 1, |p.d.files|);
  }

  lemma EvictKeepsNext(p: P, r: Ram)
    requires Mirrors(p, r, true)
    ensures var l := Evict(p.l, |p.d.files|);
      NextSlot(l, |p.d.files|) == NextSlot(p.l, |p.d.files|) && Top(l) == Top(p.l) && l.segs != []
  {
    hide Inv, Ready, RamOk, Synced;
    InvShape(p);
  }

  lemma OldestOfMirror(p: P, r: Ram, sealed: bool)
    requires Mirrors(p, r, sealed)
    ensures Numbered(r.segments) && r.state.oldestGen == p.l.base
    ensures forall oldest :: IsOldest(r.segments, |r.segments|, oldest) ==> oldest == p.l.base
  {
    SegmentsNumbered(p, r.segments, sealed);
    forall oldest | IsOldest(r.segments, |r.segments|, oldest) ensures oldest == p.l.base {
      OldestIsBase(p, r.segments, sealed, oldest);
    }
  }

  // ---------- Appending ----------

  /** The retained log with the pending entries behind it: everything a caller can read, generation by generation. */
  function Contents(p: P): Log { Extend(p.l, p.buf) }

  /** The log with a new generation opened; when every slot is in use, the oldest one goes. */
  function Turned(l: Log, slots: nat): Log { Open(Evict(l, slots)) }

  /** An entry of this size fits an empty segment, but not behind the entries of the newest one. */
  predicate Rotates(l: Log, g: Geometry, size: nat) { DATA_START + size <= g.dataEnd < End(LastSeg(l)) + size }

  /** How many segments an append of this size opens. */
  function Turns(p: P, size: nat): nat { if Rotates(Contents(p), p.d.g, size) then 1 else 0 }

  /** The log that an entry of this size is put behind. */
  function Prepared(p: P, size: nat): Log
  {
    if Rotates(Contents(p), p.d.g, size) then Turned(Contents(p), |p.d.files|) else Contents(p)
  }

  /** Everything that could be read in p can be read in q, with `more` behind it, except that the oldest generation of a
      full store may be gone. */
  ghost predicate Remains(p: P, q: P, more: seq<Entry>)
  {
    || (q.l.base == p.l.base && Visible(q) == Visible(p) + more)
    || (q.l.base == p.l.base + 1 && |p.l.segs| == |p.d.files| && p.l.segs != [] &&
        Visible(q) == Flat(p.l.segs[1..]) + p.buf + more)
  }

  lemma ContentsFacts(p: P)
    ensures Top(Contents(p)) == Top(p.l) && Contents(p).base == p.l.base && |Contents(p).segs| == |p.l.segs|
    ensures p.l.segs != [] ==> Flat(Contents(p).segs) == Visible(p) && LastSeg(Contents(p)) == TopRun(p)
    ensures p.l.segs != [] && p.buf == [] ==> Contents(p) == p.l
    ensures |p.l.segs| >= 2 ==> Flat(Contents(p).segs[1..]) == Flat(p.l.segs[1..]) + p.buf
  {
    if p.l.segs != [] {
      FlatExtend(p.l, p.buf);
      if p.buf == [] {
        ExtendNothing(p.l);
      }
    }
    if |p.l.segs| >= 2 {
      NewerContents(p.l, p.buf);
    }
  }

  lemma NewerContents(l: Log, more: seq<Entry>)
    requires |l.segs| >= 2
    ensures Flat(Extend(l, more).segs[1..]) == Flat(l.segs[1..]) + more
  {
    var newer := l.(segs := l.segs[1..]);
    FlatExtend(newer, more);
    hide Flat;
    var a, b, n := Extend(newer, more).segs, Extend(l, more).segs[1..], |l.segs| - 1;
    assert a[n - 1] == b[n - 1];
    assert forall k :: 0 <= k < n - 1 ==> a[k] == l.segs[k + 1] && b[k] == l.segs[k + 1];
    assert a == b;
  }

  lemma TurnedFacts(l: Log, slots: nat)
    requires 1 <= |l.segs| && 2 <= slots
    ensures Top(Turned(l, slots)) == Top(l) + 1 && Turned(l, slots).segs != [] && LastSeg(Turned(l, slots)) == []
    ensures Turned(l, slots).base == l.base + if |l.segs| == slots then 1 else 0
    ensures Flat(Turned(l, slots).segs) == Flat(if |l.segs| == slots then l.segs[1..] else l.segs)
  {
    FlatOpen(Evict(l, slots));
  }

  lemma ExtendFacts(l: Log, more: seq<Entry>)
    requires l.segs != []
    ensures Top(Extend(l, more)) == Top(l) && Extend(l, more).base == l.base && Extend(l, more).segs != []
    ensures Flat(Extend(l, more).segs) == Flat(l.segs) + more
  {
    FlatExtend(l, more);
  }

  lemma GrownRemains(p: P, q: P, turned: bool, more: seq<Entry>)
    requires 1 <= |p.l.segs| && 2 <= |p.d.files| && q.l.segs != []
    requires Contents(q) == Extend(if turned then Turned(Contents(p), |p.d.files|) else Contents(p), more)
    ensures Remains(p, q, more) && Top(q.l) == Top(p.l) + if turned then 1 else 0
  {
    ContentsFacts(p);
    ContentsFacts(q);
    hide Contents, Turned, Extend, Flat, Visible, Top;
    TurnedFacts(Contents(p), |p.d.files|);
    ExtendFacts(if turned then Turned(Contents(p), |p.d.files|) else Contents(p), more);
  }

  /** Nothing is appended and nothing is lost; at most the newest segment is turned over. */
  ghost predicate Quiet(p: P, q: P, turned: bool)
  {
    && q.hist + q.buf == p.hist + p.buf
    && q.last == p.last && q.boot == p.boot && q.mode == p.mode
    && Contents(q) == (if turned then Turned(Contents(p), |p.d.files|) else Contents(p))
    && SameLayout(p.d, q.d)
  }

  lemma SettledQuiet(p: P, q: P)
    requires q == Settled(p).(d := q.d) && SameLayout(p.d, q.d) && p.l.segs != []
    ensures Quiet(p, q, false)
  {
    ContentsFacts(q);
    assert p.hist + p.buf + [] == p.hist + p.buf;
  }

  lemma RotatedQuiet(p: P, q: P)
    requires q == Rotated(Settled(p)).(d := q.d) && SameLayout(p.d, q.d) && p.l.segs != []
    ensures Quiet(p, q, true)
  {
    ContentsFacts(p);
    ContentsFacts(q);
    assert p.hist + p.buf + [] == p.hist + p.buf;
  }

  lemma QuietTop(p: P, q: P, turned: bool)
    requires Quiet(p, q, turned) && 1 <= |p.l.segs| && 2 <= |p.d.files|
    ensures Top(q.l) == Top(p.l) + (if turned then 1 else 0) && q.l.segs != []
  {
    ContentsFacts(p);
    ContentsFacts(q);
    hide Contents, Turned, Top;
    TurnedFacts(Contents(p), |p.d.files|);
  }

  lemma QuietRotates(p: P, q: P, size: nat)
    requires Quiet(p, q, false)
    ensures Rotates(Contents(q), q.d.g, size) <==> Rotates(Contents(p), p.d.g, size)
    ensures q.last == p.last && q.boot == p.boot && q.mode == p.mode && q.d.g == p.d.g
  {
    hide Contents, Rotates;
  }

  lemma QuietThen(p: P, q: P, r: P, turned: bool)
    requires Quiet(p, q, false) && Quiet(q, r, turned)
    ensures Quiet(p, r, turned)
  {
    hide Contents, Turned;
  }

  /** Outcome of an append: on success history and log grow by exactly the new entry, behind what was there, after
      turning over the newest segment when the entry does not fit; otherwise nothing is appended. */
  ghost predicate Appended(p: P, q: P, ok: bool, e: Option<Entry>, typ: nat, payload: seq<byte>, now: nat)
  {
    && (ok <==> e.Some?)
    && (if ok then
          && e.value.typ == typ && e.value.payload == payload && e.value.uptime == now
          && p.last < e.value.id && Boot(e.value.id) == p.boot && q.last == e.value.id
          && q.hist + q.buf == p.hist + p.buf + [e.value]
          && Contents(q) == Extend(Prepared(p, Size(e.value)), [e.value])
          && Remains(p, q, [e.value]) && e.value in Visible(q)
        else
          && q.hist + q.buf == p.hist + p.buf && q.last == p.last
          && Remains(p, q, []))
    && q.boot == p.boot && q.mode == p.mode
    && SameLayout(p.d, q.d)
  }

  lemma QuietAppendsNothing(p: P, q: P, turned: bool, typ: nat, payload: seq<byte>, now: nat)
    requires Quiet(p, q, turned) && 1 <= |p.l.segs| && 2 <= |p.d.files|
    ensures Appended(p, q, false, None, typ, payload, now)
    ensures Top(q.l) == Top(p.l) + if turned then 1 else 0
    ensures q.last == p.last && q.boot == p.boot && q.mode == p.mode && q.d.g == p.d.g
  {
    var l := if turned then Turned(Contents(p), |p.d.files|) else Contents(p);
    QuietTop(p, q, turned);
    ContentsFacts(q);
    hide Contents, Turned, Top, Visible, Remains;
    ExtendNothing(l);
    GrownRemains(p, q, turned, []);
  }

  lemma QuietOnTime(p: P, q: P, turned: bool, now: nat)
    requires OnTime(p, now) && Quiet(p, q, turned)
    ensures OnTime(q, now)
  {
  }

  /** A store that was flushed and then prepared for an entry is ready for it, or to leave things as they are. */
  lemma RoomMade(p: P, flushed: P, room: P, size: nat, typ: nat, payload: seq<byte>, now: nat)
    requires Quiet(p, flushed, false) && Quiet(flushed, room, Rotates(Contents(flushed), flushed.d.g, size))
    requires OnTime(p, now) && 1 <= |p.l.segs| && 2 <= |p.d.files|
    ensures Quiet(p, room, Rotates(Contents(p), p.d.g, size)) && Turns(flushed, size) == Turns(p, size)
    ensures Appended(p, room, false, None, typ, payload, now) && Top(room.l) == Top(p.l) + Turns(p, size)
    ensures room.last == p.last && room.boot == p.boot && room.mode == p.mode && room.d.g == p.d.g && OnTime(room, now)
  {
    hide Quiet, Appended, OnTime, Top, Contents, Rotates;
    var turned := Rotates(Contents(p), p.d.g, size);
    QuietRotates(p, flushed, size);
    QuietThen(p, flushed, room, turned);
    QuietAppendsNothing(p, room, turned, typ, payload, now);
    QuietOnTime(p, room, turned, now);
  }

  lemma ExtendNothing(l: Log)
    requires l.segs != []
    ensures Extend(l, []) == l
  {
    assert LastSeg(l) + [] == LastSeg(l);
    assert Extend(l, []).segs == l.segs;
  }

  lemma AppendedBy(p: P, room: P, q: P, e: Entry)
    requires Quiet(p, room, Rotates(Contents(p), p.d.g, Size(e))) && Quiet(Taken(room, e), q, false)
    requires room.last < e.id && Boot(e.id) == room.boot && 1 <= |p.l.segs| && 2 <= |p.d.files|
    ensures Appended(p, q, true, Some(e), e.typ, e.payload, e.uptime)
    ensures Top(q.l) == Top(p.l) + if Rotates(Contents(p), p.d.g, Size(e)) then 1 else 0
  {
    hide Contents, Turned, Top, Visible, Remains, Rotates, Extend;
    assert room.hist + (room.buf + [e]) == room.hist + room.buf + [e];
    var turned := Rotates(Contents(p), p.d.g, Size(e));
    QuietTop(p, room, turned);
    TakenContents(room, q, e);
    GrownRemains(p, q, turned, [e]);
    RemainsLast(p, q, e);
  }

  lemma TakenContents(room: P, q: P, e: Entry)
    requires Contents(q) == Contents(Taken(room, e)) && room.l.segs != []
    ensures Contents(q) == Extend(Contents(room), [e]) && q.l.segs != []
  {
    ExtendTwice(room.l, room.buf, [e]);
    ContentsFacts(q);
    ContentsFacts(Taken(room, e));
  }

  lemma ExtendTwice(l: Log, a: seq<Entry>, b: seq<Entry>)
    ensures Extend(Extend(l, a), b) == Extend(l, a + b)
  {
    if l.segs != [] {
      assert LastSeg(l) + a + b == LastSeg(l) + (a + b);
      assert Extend(Extend(l, a), b).segs == Extend(l, a + b).segs;
    }
  }

  lemma RemainsLast(p: P, q: P, e: Entry)
    requires Remains(p, q, [e])
    ensures e in Visible(q)
  {
    assert Visible(q)[|Visible(q)| - 1] == e;
  }

  lemma QuietIsReflexive(p: P)
    ensures Quiet(p, p, false)
  {
  }

  lemma AppendedOnTime(p: P, q: P, ok: bool, e: Option<Entry>, typ: nat, payload: seq<byte>, now: nat)
    requires OnTime(p, now) && Appended(p, q, ok, e, typ, payload, now)
    ensures OnTime(q, now)
  {
    hide Remains, Contents, Prepared, Visible;
    if ok {
      var all := p.hist + p.buf + [e.value];
      assert all[..|p.hist + p.buf|] == p.hist + p.buf;
    }
  }

  lemma TopRunFits(p: P)
    requires Inv(p) && p.mode != Down
    ensures GeometryOk(p.d.g) && DATA_START <= End(TopRun(p)) <= p.d.g.dataEnd
  {
    TopHolds(p.d, p.l, p.boot, p.last);
    if p.mode != Live {
      assert TopRun(p) == LastSeg(p.l);
    }
  }

  lemma WriteOffsetInRange(p: P, r: Ram, sealed: bool)
    requires Mirrors(p, r, sealed)
    ensures r.active.slot < |r.segments| && r.state.boot == p.boot && p.d.g.dataEnd <= SIZE_MAX && p.l.segs != []
    ensures !sealed ==> DATA_START <= r.writeOffset <= p.d.g.dataEnd
    ensures !sealed && LastSeg(p.l) == [] && r.buf == [] ==> r.writeOffset == DATA_START
    ensures !sealed && r.writeOffset > DATA_START ==> TopRun(p) != []
  {
    TopRunFits(p);
    TopDesc(p, r, sealed);
  }

  lemma MirrorSlots(p: P, r: Ram, sealed: bool)
    requires Mirrors(p, r, sealed)
    ensures 1 <= |p.l.segs| && 2 <= |p.d.files| && r.state.boot == p.boot && r.buf == p.buf
    ensures p.d.g.dataEnd <= SIZE_MAX && p.d.g.dataEnd - DATA_START >= SLOT_SIZE
  {
    TopRunFits(p);
  }

  /** The write offset is where the entries of the newest segment end. */
  lemma RotatesWhenFull(p: P, r: Ram, size: nat)
    requires Mirrors(p, r, false)
    ensures Rotates(Contents(p), p.d.g, size) <==> DATA_START + size <= p.d.g.dataEnd < r.writeOffset + size
  {
    ContentsFacts(p);
  }

  /** The index area always has room for the next item. */
  lemma IndexRoom(p: P, r: Ram, e: Entry)
    requires Mirrors(p, r, false) && r.active.slot < |r.segments| && r.writeOffset + Size(e) <= p.d.g.dataEnd
    ensures r.segments[r.active.slot].count % STRIDE == 0 ==>
            |r.index| < p.d.g.indexCapacity && r.writeOffset <= SIZE_MAX
  {
    TopRunFits(p);
    TopDesc(p, r, false);
    RoomForItem(p.d.g, TopRun(p), Size(e));
  }

  lemma RoomForItem(g: Geometry, es: seq<Entry>, size: nat)
    requires GeometryOk(g) && End(es) + size <= g.dataEnd && size >= MIN_ENTRY
    ensures |es| % STRIDE == 0 ==> IndexCount(|es|) < g.indexCapacity
  {
    IndexNeverFull(g, |es| + 1);
  }

  /** An ID made from the current boot and an unused sequence number is new. */
  lemma FreshId(boot: nat, sequence: nat, last: nat)
    requires last <= MakeId(boot, sequence)
    ensures last < MakeId(boot, sequence + 1) && MakeId(boot, sequence + 1) != 0
    ensures sequence < SEQUENCE_MASK ==>
            Boot(MakeId(boot, sequence + 1)) == boot && Sequenced(MakeId(boot, sequence + 1))
  {
  }
}
