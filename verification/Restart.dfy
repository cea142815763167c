/** What recovery rebuilds in memory, slot by slot. */
module Restart {
  import opened Layout
  import opened Segment
  import opened Device
  import opened Protocol
  import opened Runs
  import opened Memory

  /** A restarting store: powered, nothing buffered, on-disk invariant intact. */
  ghost predicate Restarting(p: P, s: Super)
  {
    Inv(p) && p.mode == Recovering && p.buf == [] && Synced(p, s)
  }

  /** The descriptor recovery may hold for slot i: sealed with footer and index intact, open
      and without footer, or unused. */
  ghost predicate RecoveredAs(p: P, i: nat, d: Desc)
    requires i < |p.d.files|
  {
    var k := RankOf(p.l.first, i, |p.d.files|);
    if k < |p.l.segs| then
      || (d == DescOf(IdentOf(p, k), p.l.segs[k], true, IndexCount(|p.l.segs[k]|)) && SealStored(p, k))
      || (d == DescOf(IdentOf(p, k), p.l.segs[k], false, d.indexCount) && !HasFooter(p.d.files[i], IdentOf(p, k)))
    else d == NoDesc
  }

  ghost predicate AllRecovered(p: P, segments: seq<Desc>, count: nat)
    requires count <= |segments| == |p.d.files|
  {
    forall i :: 0 <= i < count ==> RecoveredAs(p, i, segments[i])
  }

  /** What loading a slot's header tells recovery: skip it, or recover generation base + k. */
  lemma HeaderVerdict(p: P, s: Super, i: nat, gen: nat)
    requires Restarting(p, s) && s.oldestGen == p.l.base && i < |p.d.files|
    requires LoadHeader(p.d.files[i], p.d.store, i) == Some(gen)
    ensures var k := RankOf(p.l.first, i, |p.d.files|);
      if gen == 0 || (s.oldestGen != 0 && gen < s.oldestGen) then k >= |p.l.segs|
      else k < |p.l.segs| && Ident(p.d.store, i, gen) == IdentOf(p, k) && IdentOf(p, k).slot == i
  {
    assert SlotOk(p.d.g, p.d.store, |p.d.files|, i, p.d.files[i], p.l);
    SlotRank(p.l, i, |p.d.files|);
  }

  /** What the contents of a retained slot tell recovery. */
  lemma ContentsVerdict(p: P, k: nat)
    requires Inv(p) && k < |p.l.segs|
    ensures var at := IdentOf(p, k);
      && at.slot < |p.d.files| && RankOf(p.l.first, at.slot, |p.d.files|) == k
      && GeometryOk(p.d.g)
      && var file := p.d.files[at.slot];
         var f := LoadFooter(file, at, p.d.g);
         && Scan(file.cells, at, p.d.g.dataEnd) == p.l.segs[k]
         && (f.None? <==> !HasFooter(file, at))
         && (f.Some? ==> f.value == FooterOf(at, p.l.segs[k]) && PrefixHolds(f, p.l.segs[k])
                         && FooterDesc(f.value) == DescOf(at, p.l.segs[k], true, IndexCount(|p.l.segs[k]|)))
  {
    var at := IdentOf(p, k);
    AtRank(p.d, p.l, p.boot, p.last, k);
    RankSlot(p.l, k, |p.d.files|);
    var file := p.d.files[at.slot];
    var es := p.l.segs[k];
    ScanIsUnique(file.cells, at, p.d.g.dataEnd, es);
    assert es[..|es|] == es;
    FooterOfValid(at, es, p.d.g);
  }

  /** Rewriting one slot leaves what was recovered for the others valid. */
  lemma OthersRecovered(p: P, q: P, segments: seq<Desc>, after: seq<Desc>, slot: nat, count: nat)
    requires q == p.(d := q.d) && OnlySlot(p.d, q.d, slot) && slot < |p.d.files|
    requires |segments| == |after| == |p.d.files| && count <= |segments| && Shape(p.l, |p.d.files|)
    requires forall i :: 0 <= i < count && i != slot ==> after[i] == segments[i]
    requires AllRecovered(p, segments, count)
    ensures forall i :: 0 <= i < count && i != slot ==> RecoveredAs(q, i, after[i])
  {
    forall i | 0 <= i < count && i != slot ensures RecoveredAs(q, i, after[i]) {
      assert RecoveredAs(p, i, segments[i]);
      SlotRank(p.l, i, |p.d.files|);
    }
  }

  // ---------- The newest generation ----------

  ghost predicate IsHighest(segments: seq<Desc>, count: nat, highest: nat, slot: nat)
    requires count <= |segments|
  {
    && (forall i :: 0 <= i < count && segments[i].valid ==> segments[i].gen <= highest)
    && (highest != 0 ==> slot < count && segments[slot].valid && segments[slot].gen == highest)
  }

  lemma HighestIsTop(p: P, segments: seq<Desc>, highest: nat, slot: nat)
    requires Shape(p.l, |p.d.files|) && |segments| == |p.d.files| && AllRecovered(p, segments, |segments|)
    requires IsHighest(segments, |segments|, highest, slot)
    ensures highest == Top(p.l) && slot == TopSlot(p.l, |p.d.files|) && slot < |segments| && highest != 0
  {
    var t := TopSlot(p.l, |p.d.files|);
    RankSlot(p.l, |p.l.segs| - 1, |p.d.files|);
    assert RecoveredAs(p, t, segments[t]);
    assert RecoveredAs(p, slot, segments[slot]);
    SlotRank(p.l, slot, |p.d.files|);
  }

  // ---------- Descriptors once everything but the newest segment is sealed ----------

  ghost predicate SealedBut(p: P, segments: seq<Desc>, count: nat)
    requires count <= |segments|
  {
    forall i :: 0 <= i < count && i != TopSlot(p.l, |p.d.files|) && segments[i].valid ==> segments[i].sealed
  }

  lemma ReadyAfterSealing(p: P, segments: seq<Desc>)
    requires Shape(p.l, |p.d.files|) && |segments| == |p.d.files| && AllRecovered(p, segments, |segments|)
    requires SealedBut(p, segments, |segments|)
    ensures Ready(p.d, p.l)
  {
    forall k | 0 <= k < |p.l.segs| ensures SegReady(p.d, p.l, k) {
      RankSlot(p.l, k, |p.d.files|);
      RankSlot(p.l, |p.l.segs| - 1, |p.d.files|);
      var i := SlotAt(p.l.first, k, |p.d.files|);
      assert RecoveredAs(p, i, segments[i]);
    }
  }

  lemma DescsAfterSealing(p: P, segments: seq<Desc>, top: Desc, sealed: bool)
    requires Shape(p.l, |p.d.files|) && |segments| == |p.d.files| && AllRecovered(p, segments, |segments|)
    requires SealedBut(p, segments, |segments|) && p.buf == []
    requires top == DescOf(TopIdent(p.d.store, |p.d.files|, p.l), LastSeg(p.l), sealed, IndexCount(|LastSeg(p.l)|))
    ensures TopSlot(p.l, |p.d.files|) < |segments|
    ensures SegmentsOk(p, segments[TopSlot(p.l, |p.d.files|) := top], sealed)
  {
    var t := TopSlot(p.l, |p.d.files|);
    RankSlot(p.l, |p.l.segs| - 1, |p.d.files|);
    assert TopRun(p) == LastSeg(p.l);
    var after := segments[t := top];
    forall i | 0 <= i < |after| ensures after[i] == DescAt(p, i, sealed) {
      assert RecoveredAs(p, i, segments[i]);
      SlotRank(p.l, i, |p.d.files|);
    }
  }

  // ---------- Totals ----------

  /** Sizes of the segments of ranks a..b-1; ranks beyond the log count nothing. */
  function SumRanks(segs: seq<seq<Entry>>, a: nat, b: nat): nat
    decreases b
  {
    if b <= a then 0 else SumRanks(segs, a, b - 1) + if b - 1 < |segs| then Span(segs[b - 1]) else 0
  }

  lemma {:induction false} SumSplit(segs: seq<seq<Entry>>, a: nat, b: nat, c: nat)
    requires a <= b <= c
    ensures SumRanks(segs, a, b) + SumRanks(segs, b, c) == SumRanks(segs, a, c)
    decreases c
  {
    if b < c {
      SumSplit(segs, a, b, c - 1);
    }
  }

  lemma {:induction false} SumFlat(segs: seq<seq<Entry>>, b: nat)
    requires b <= |segs|
    ensures SumRanks(segs, 0, b) == Span(Flat(segs[..b]))
    decreases b
  {
    if b > 0 {
      SumFlat(segs, b - 1);
      var p := segs[..b];
      assert p[..|p| - 1] == segs[..b - 1];
      SpanAppend(Flat(segs[..b - 1]), segs[b - 1]);
    }
  }

  lemma {:induction false} SumBeyond(segs: seq<seq<Entry>>, b: nat)
    requires |segs| <= b
    ensures SumRanks(segs, |segs|, b) == 0
    decreases b
  {
    if |segs| < b {
      SumBeyond(segs, b - 1);
    }
  }

  /** Total size of the slots 0..count-1, whose ranks start in the middle of the cycle. */
  function SumSlots(p: P, count: nat): nat
    requires Shape(p.l, |p.d.files|) && count <= |p.d.files|
  {
    var n := |p.d.files|;
    var start := n - p.l.first;
    if count <= p.l.first then SumRanks(p.l.segs, start, start + count)
    else SumRanks(p.l.segs, start, n) + SumRanks(p.l.segs, 0, count - p.l.first)
  }

  lemma SumNextSlot(p: P, i: nat)
    requires Shape(p.l, |p.d.files|) && i < |p.d.files|
    ensures SumSlots(p, i + 1) == SumSlots(p, i) +
              var k := RankOf(p.l.first, i, |p.d.files|); if k < |p.l.segs| then Span(p.l.segs[k]) else 0
  {
  }

  lemma SumAllSlots(p: P)
    requires Shape(p.l, |p.d.files|)
    ensures SumSlots(p, |p.d.files|) == Span(Flat(p.l.segs))
  {
    var n := |p.d.files|;
    SumSplit(p.l.segs, 0, n - p.l.first, n);
    SumSplit(p.l.segs, 0, |p.l.segs|, n);
    SumBeyond(p.l.segs, n);
    SumFlat(p.l.segs, |p.l.segs|);
    assert p.l.segs[..|p.l.segs|] == p.l.segs;
  }

  /** Size and newest ID as a descriptor reports them. */
  lemma DescTotals(p: P, i: nat, sealed: bool)
    requires Shape(p.l, |p.d.files|) && i < |p.d.files| && p.buf == [] && IdsWithin(p.l.segs, p.last)
    ensures var d := DescAt(p, i, sealed);
      var k := RankOf(p.l.first, i, |p.d.files|);
      (d.valid <==> k < |p.l.segs|) &&
      (d.valid ==> d.dataEnd == HEADER_REGION + Span(p.l.segs[k]) && d.last <= p.last && d.gen <= Top(p.l))
  {
    var k := RankOf(p.l.first, i, |p.d.files|);
    if k < |p.l.segs| {
      var es := p.l.segs[k];
      assert es[..|es|] == es;
      assert k + 1 == |p.l.segs| ==> TopRun(p) == es;
      if es != [] {
        assert p.l.segs[k][|es| - 1].id <= p.last;
      }
    }
  }

  // ---------- Steps of recovery ----------

  lemma SealedRestart(p: P, q: P, s: Super, k: nat)
    requires Restarting(p, s) && Sealable(q, k) && q == p.(d := q.d) && OnlySlot(p.d, q.d, IdentOf(p, k).slot)
    requires SealStored(q, k) && RankOf(p.l.first, IdentOf(p, k).slot, |p.d.files|) == k
    ensures Restarting(q, s)
    ensures RecoveredAs(q, IdentOf(p, k).slot, DescOf(IdentOf(p, k), p.l.segs[k], true, IndexCount(|p.l.segs[k]|)))
  {
  }

  lemma RestartSealable(p: P, s: Super, k: nat)
    requires Restarting(p, s) && k < |p.l.segs|
    ensures Sealable(p, k) && p.mode == Recovering
  {
    RankInRange(p, k);
  }

  lemma FastRecovered(p: P, s: Super, k: nat, f: Footer)
    requires Restarting(p, s) && k < |p.l.segs| && IdentOf(p, k).slot < |p.d.files|
    requires LoadFooter(FileOf(p, k), IdentOf(p, k), p.d.g) == Some(f) && IndexMatches(FileOf(p, k), f)
    ensures RecoveredAs(p, IdentOf(p, k).slot, FooterDesc(f))
  {
    ContentsVerdict(p, k);
  }

  lemma OpenRecovered(p: P, s: Super, k: nat, indexCount: nat)
    requires Restarting(p, s) && k < |p.l.segs| && IdentOf(p, k).slot < |p.d.files|
    requires LoadFooter(FileOf(p, k), IdentOf(p, k), p.d.g) == None
    ensures RecoveredAs(p, IdentOf(p, k).slot, DescOf(IdentOf(p, k), p.l.segs[k], false, indexCount))
  {
    ContentsVerdict(p, k);
  }

  lemma ContentsKnown(p: P, s: Super, k: nat)
    requires Restarting(p, s) && k < |p.l.segs|
    ensures var at := IdentOf(p, k);
      && at.slot < |p.d.files| && RankOf(p.l.first, at.slot, |p.d.files|) == k && GeometryOk(p.d.g)
      && LoadHeader(p.d.files[at.slot], p.d.store, at.slot) == Some(at.gen)
      && Scan(p.d.files[at.slot].cells, at, p.d.g.dataEnd) == p.l.segs[k]
      && PrefixHolds(LoadFooter(p.d.files[at.slot], at, p.d.g), p.l.segs[k])
      && (LoadFooter(p.d.files[at.slot], at, p.d.g).Some? ==> HasFooter(p.d.files[at.slot], at))
  {
    ContentsVerdict(p, k);
    AtRank(p.d, p.l, p.boot, p.last, k);
  }

  lemma HeaderKnown(p: P, s: Super, i: nat, gen: nat)
    requires Restarting(p, s) && s.oldestGen == p.l.base && i < |p.d.files|
    requires LoadHeader(p.d.files[i], p.d.store, i) == Some(gen)
    ensures var k := RankOf(p.l.first, i, |p.d.files|);
      if gen == 0 || (s.oldestGen != 0 && gen < s.oldestGen) then RecoveredAs(p, i, NoDesc)
      else k < |p.l.segs| && Ident(p.d.store, i, gen) == IdentOf(p, k) && IdentOf(p, k).slot == i
    ensures LoadHeader(p.d.files[i], p.d.store, i).Some?
  {
    HeaderVerdict(p, s, i, gen);
  }

  lemma RestartShape(p: P, s: Super)
    requires Restarting(p, s)
    ensures Shape(p.l, |p.d.files|)
  {
  }

  lemma ValidRank(p: P, s: Super, segments: seq<Desc>, slot: nat)
    requires Restarting(p, s) && |segments| == |p.d.files| && AllRecovered(p, segments, |segments|)
    requires slot < |segments| && segments[slot].valid
    ensures var k := RankOf(p.l.first, slot, |p.d.files|); k < |p.l.segs| && slot == IdentOf(p, k).slot
  {
    assert RecoveredAs(p, slot, segments[slot]);
    SlotRank(p.l, slot, |p.d.files|);
  }

  lemma RestartFacts(p: P, s: Super)
    requires Restarting(p, s)
    ensures Shape(p.l, |p.d.files|) && IdsWithin(p.l.segs, p.last) && Boot(p.last) <= p.boot <= BOOT_MASK && p.buf == []
    ensures p.mode == Recovering
  {
  }

  lemma VisibleUnbuffered(p: P)
    requires p.buf == []
    ensures Span(Visible(p)) == Span(Flat(p.l.segs))
  {
    assert Visible(p) == Flat(p.l.segs);
  }

  /** Counters brought up to the newest entry and generation found on disk, should the superblock lag behind them. */
  function CaughtUp(s: Super, newest: nat, highest: nat): Super
  {
    var boot := newest / BOOT_UNIT;
    var sequence := newest % BOOT_UNIT;
    var counted :=
      if newest == 0 then s
      else if boot > s.boot then s.(boot := boot, sequence := sequence)
      else if boot == s.boot && sequence > s.sequence then s.(sequence := sequence)
      else s;
    if counted.nextGen <= highest then counted.(nextGen := highest + 1) else counted
  }

  /** They never do lag: the boot counter is committed before the first entry of a boot is issued. */
  lemma CountersWithin(s: Super, newest: nat, last: nat, boot: nat)
    requires newest <= last && Boot(last) <= boot && s.boot == boot && s.sequence <= SEQUENCE_MASK
    ensures forall highest: nat {:trigger CaughtUp(s, newest, highest)} :: highest < s.nextGen ==>
              var c := CaughtUp(s, newest, highest);
              c == s.(sequence := c.sequence) && c.sequence <= SEQUENCE_MASK
  {
  }

  // ---------- The newest segment ----------

  /** The superblock with the fields that mirror the log filled in. */
  function Totalled(p: P, s: Super): Super
  {
    s.(oldestGen := p.l.base, activeGen := Top(p.l), activeSlot := TopSlot(p.l, |p.d.files|), used := Span(Visible(p)))
  }

  lemma TopKnown(p: P, s: Super, segments: seq<Desc>)
    requires Restarting(p, s) && |segments| == |p.d.files| && AllRecovered(p, segments, |segments|)
    ensures var at := TopIdent(p.d.store, |p.d.files|, p.l);
      && at.slot < |segments| && GeometryOk(p.d.g) && at.gen != 0
      && Scan(p.d.files[at.slot].cells, at, p.d.g.dataEnd) == LastSeg(p.l)
      && PrefixHolds(None, LastSeg(p.l))
      && (segments[at.slot].sealed <==> HasFooter(p.d.files[at.slot], at))
      && (segments[at.slot].sealed ==> segments[at.slot] == DescOf(at, LastSeg(p.l), true, IndexCount(|LastSeg(p.l)|)))
  {
    RankSlot(p.l, |p.l.segs| - 1, |p.d.files|);
    ContentsVerdict(p, |p.l.segs| - 1);
    assert RecoveredAs(p, TopSlot(p.l, |p.d.files|), segments[TopSlot(p.l, |p.d.files|)]);
  }

  lemma OpenTop(p: P, s: Super, segments: seq<Desc>, d: Desc, r: Ram)
    requires Restarting(p, s) && |segments| == |p.d.files| && AllRecovered(p, segments, |segments|)
    requires SealedBut(p, segments, |segments|)
    requires var at := TopIdent(p.d.store, |p.d.files|, p.l);
      && at.slot < |segments| && !HasFooter(p.d.files[at.slot], at) && r.active == at
      && r.segments == segments[at.slot := d]
    requires d == DescOf(TopIdent(p.d.store, |p.d.files|, p.l), LastSeg(p.l), false, IndexCount(|LastSeg(p.l)|))
    requires r.index == Sample(LastSeg(p.l)) && r.writeOffset == d.dataEnd && r.buf == [] && r.state == s
    requires s.nextGen == Top(p.l) + 1 && s.boot == p.boot && s.sequence <= SEQUENCE_MASK
    ensures RamOk(p, r.(state := Totalled(p, s)), false)
  {
    assert TopRun(p) == LastSeg(p.l);
    DescsAfterSealing(p, segments, d, false);
  }

  lemma SealedTop(p: P, s: Super, segments: seq<Desc>)
    requires Restarting(p, s) && |segments| == |p.d.files| && AllRecovered(p, segments, |segments|)
    requires SealedBut(p, segments, |segments|) && TopSlot(p.l, |p.d.files|) < |segments|
    requires segments[TopSlot(p.l, |p.d.files|)] ==
             DescOf(TopIdent(p.d.store, |p.d.files|, p.l), LastSeg(p.l), true, IndexCount(|LastSeg(p.l)|))
    ensures SegmentsOk(p, segments, true)
    ensures forall slot, gen :: Restarting(p, s.(activeSlot := slot, activeGen := gen))
  {
    var t := TopSlot(p.l, |p.d.files|);
    DescsAfterSealing(p, segments, segments[t], true);
    assert segments[t := segments[t]] == segments;
  }

  lemma SealedTopMirrors(p: P, r: Ram)
    requires Restarting(p, r.state) && StateOk(p, r.state) && SegmentsOk(p, r.segments, true) && r.buf == []
    requires r.active == TopIdent(p.d.store, |p.d.files|, p.l) && r.active.slot < |p.d.files| &&
             HasFooter(p.d.files[r.active.slot], r.active)
    requires Ready(p.d, p.l)
    ensures Mirrors(p, r, true)
  {
  }

  lemma OpenedMirrors(p: P, r: Ram)
    requires Mirrors(p, r, false) && p.mode == Recovering && r.buf == []
    ensures Restarting(p, r.state) && RamOk(p, r.(state := Totalled(p, r.state)), false) && Ready(p.d, p.l)
    ensures r.state.nextGen == Top(p.l) + 1 && r.state.boot == p.boot && r.state.sequence <= SEQUENCE_MASK
  {
  }

  lemma MirrorReady(p: P, r: Ram, sealed: bool)
    requires Mirrors(p, r, sealed)
    ensures Ready(p.d, p.l) && r.state.boot == p.boot && r.state.sequence <= SEQUENCE_MASK && r.buf == p.buf
  {
  }

  /** The newest segment has been sealed, so nothing more can be put into it. */
  predicate TopSealed(p: P)
  {
    var at := TopIdent(p.d.store, |p.d.files|, p.l);
    at.slot < |p.d.files| && HasFooter(p.d.files[at.slot], at)
  }

  lemma OtherSlotSealed(p: P, q: P, slot: nat)
    requires q == p.(d := q.d) && SameLayout(p.d, q.d) && OnlySlot(p.d, q.d, slot) && slot != TopSlot(p.l, |p.d.files|)
    ensures TopSealed(q) <==> TopSealed(p)
  {
  }

  /** Recovering the contents of a slot never seals the newest segment, nor breaks its seal. */
  lemma RecoveredSealed(p: P, q: P, k: nat)
    requires Shape(p.l, |p.d.files|) && k < |p.l.segs| && q == p.(d := q.d) && SameLayout(p.d, q.d)
    requires OnlySlot(p.d, q.d, IdentOf(p, k).slot) && IdentOf(p, k).slot < |p.d.files|
    requires HasFooter(FileOf(p, k), IdentOf(p, k)) && SealStored(q, k)
    ensures TopSealed(q) <==> TopSealed(p)
  {
    RankSlot(p.l, k, |p.d.files|);
    RankSlot(p.l, |p.l.segs| - 1, |p.d.files|);
    if IdentOf(p, k).slot != TopSlot(p.l, |p.d.files|) {
      OtherSlotSealed(p, q, IdentOf(p, k).slot);
    }
  }

  /** Recovery goes on with the newest segment, or opens the next one when the newest is sealed. */
  predicate SelectedFrom(p: P, q: P)
  {
    SameLayout(p.d, q.d) && q == (if TopSealed(p) then Rotated(p) else p).(d := q.d)
  }

  lemma SameGeneration(p: P, s: Super)
    requires Restarting(p, s)
    ensures forall t: Super {:trigger Restarting(p, t)} :: t.sgen == s.sgen ==> Restarting(p, t)
  {
  }

  lemma RamSegments(p: P, r: Ram, sealed: bool)
    requires RamOk(p, r, sealed)
    ensures SegmentsOk(p, r.segments, sealed) && r.active == TopIdent(p.d.store, |p.d.files|, p.l)
  {
  }

  lemma RestoredMirrors(p: P, before: Ram, r: Ram)
    requires Restarting(p, before.state) && RamOk(p, before.(state := Totalled(p, before.state)), false) &&
             Ready(p.d, p.l)
    requires StateOk(p, r.state) && r == before.(state := r.state, newest := r.newest) &&
             r.state.sgen == before.state.sgen
    ensures Mirrors(p, r, false)
  {
  }

  // ---------- Power-on and the boot counter ----------

  function PoweredOn(p: P): P { p.(mode := Recovering) }

  lemma PowerOnRestarts(p: P)
    requires Inv(p) && p.mode == Down
    ensures Next(p, PowerOn, PoweredOn(p)) && LoadSuper(p.d).Some?
    ensures var s := LoadSuper(p.d).value;
      && Restarting(PoweredOn(p), s) && s.oldestGen == p.l.base && s.nextGen <= Top(p.l) + 1
      && s.boot == p.boot && s.sequence <= SEQUENCE_MASK
  {
  }

  /** The boot counter is durable before the first entry of the boot is issued, so every later
      ID is larger than every ID issued before. */
  lemma BootCommit(p: P, r: Ram)
    requires Mirrors(p, r, false) && p.mode == Recovering && r.buf == [] && r.state.boot < BOOT_MASK
    ensures var r' := r.(state := r.state.(boot := r.state.boot + 1, sequence := 0));
      var op := CommitOp(r'.state);
      && OpInRange(op, |p.d.files|) && Allowed(p, op)
      && var q := After(p, op);
         && q == p.(d := q.d, boot := p.boot + 1, mode := Live)
         && q.d.files == p.d.files && Mirrors(q, r'.(state := NextSuper(r'.state)), false)
         && q.last < MakeId(q.boot, 0)
  {
    hide SlotsOk, Ordered, IdsWithin, TopIssued, PendingOk, IndexMatches;
    var s := r.state.(boot := r.state.boot + 1, sequence := 0);
    CommitAllowed(p, s);
    CommitSyncs(p, s);
    IoKeeps(p, CommitOp(s));
    RamIgnoresSuper(p, After(p, CommitOp(s)), r, false);
  }

  lemma NewBootOnTime(p: P, r: Ram, now: U64)
    requires Mirrors(p, r, false) && p.last < MakeId(p.boot, 0)
    ensures OnTime(p, now) && p.d.g.dataEnd - DATA_START >= SLOT_SIZE
  {
    hide RamOk, Synced, Ready;
  }

  lemma SelectedHistory(p: P, q: P)
    requires SelectedFrom(PoweredOn(p), q) && p.mode == Down
    ensures q.mode == Recovering && q.hist == p.hist && q.buf == p.buf && q.boot == p.boot && q.last == p.last
  {
  }

  const ENTRY_BOOT_EVENT := 0xffff
  const BOOT_EVENT_SIZE := 52

  /** The log that the boot event is put behind: the recovered one, turned over when its newest segment is sealed or has
      no room for the event. */
  function BootLog(p: P): Log
  {
    if TopSealed(p) || Rotates(p.l, p.d.g, BOOT_EVENT_SIZE) then Turned(p.l, |p.d.files|) else p.l
  }

  lemma BootPrepared(p: P, selected: P, booted: P)
    requires SelectedFrom(PoweredOn(p), selected) && 1 <= |p.l.segs| && p.buf == []
    requires booted.l == selected.l && booted.buf == selected.buf && SameLayout(selected.d, booted.d)
    requires 2 <= |p.d.files| && p.d.g.dataEnd - DATA_START >= SLOT_SIZE
    ensures Prepared(booted, BOOT_EVENT_SIZE) == BootLog(p) && 1 <= |booted.l.segs| && booted.buf == []
  {
    assert TopSealed(PoweredOn(p)) == TopSealed(p);
    TurnedFacts(p.l, |p.d.files|);
    ContentsFacts(booted);
    hide Turned, Contents, Flat, TopSealed, Evict;
    EmptyEnd();
  }

  lemma EmptyEnd()
    ensures End([]) == DATA_START
  {
    var none: seq<Entry> := [];
    assert none[..0] == none;
  }

  lemma BootLogRemains(p: P, q: P, e: Entry)
    requires Contents(q) == Extend(BootLog(p), [e]) && 1 <= |p.l.segs| && p.buf == [] && 2 <= |p.d.files|
    ensures Remains(p, q, [e])
  {
    hide Turned, Contents, Flat, TopSealed, Rotates, Remains, Visible, Extend, Top;
    ContentsFacts(p);
    ContentsFacts(q);
    TurnedFacts(p.l, |p.d.files|);
    ExtendFacts(BootLog(p), [e]);
    GrownRemains(p, q, TopSealed(p) || Rotates(p.l, p.d.g, BOOT_EVENT_SIZE), [e]);
  }

  /** e is the event that records the boot, durable and readable behind everything recovered. */
  ghost predicate BootEvent(p: P, q: P, e: Entry)
  {
    && e.typ == ENTRY_BOOT_EVENT && Boot(e.id) == q.boot && p.last < e.id
    && q.hist == p.hist + [e] && e in Visible(q)
    && Contents(q) == Extend(BootLog(p), [e]) && Remains(p, q, [e])
  }

  lemma BootRecorded(p: P, selected: P, booted: P, q: P, e: Option<Entry>, payload: seq<byte>, now: nat)
    requires Appended(booted, q, true, e, ENTRY_BOOT_EVENT, payload, now) && q.buf == [] && |payload| == 8
    requires SelectedFrom(PoweredOn(p), selected) && 1 <= |p.l.segs| && p.buf == [] && 2 <= |p.d.files|
    requires booted == selected.(d := booted.d, boot := booted.boot, mode := booted.mode)
    requires SameLayout(selected.d, booted.d) && p.d.g.dataEnd - DATA_START >= SLOT_SIZE
    ensures e.Some? && e.value.payload == payload && e.value.uptime == now && BootEvent(p, q, e.value) &&
            q.boot == booted.boot && SameLayout(p.d, q.d)
  {
    assert q.hist + [] == q.hist;
    assert booted.hist + [] == booted.hist;
    BootPrepared(p, selected, booted);
    hide Contents, BootLog, Prepared, Remains, SelectedFrom;
    BootLogRemains(p, q, e.value);
  }
}
