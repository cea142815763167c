/** Durable storage: the superblock pair and the segment files, the writes made to them, and what a crash can leave. */
module Device {
  import opened Layout
  import opened Segment

  datatype Super = Super(sgen: nat, activeSlot: nat, activeGen: nat, nextGen: nat, oldestGen: nat, boot: nat,
                         sequence: nat, newest: nat, used: nat)

  /** None stands for a copy that fails validation: torn, or never written by this store. */
  datatype SlotFile = SlotFile(h0: Option<Ident>, h1: Option<Ident>, cells: Cells, index: seq<IndexItem>,
                               f0: Option<Footer>, f1: Option<Footer>)

  datatype Disk = Disk(store: nat, g: Geometry, sb0: Option<Super>, sb1: Option<Super>, files: seq<SlotFile>)

  /** One write together with the sync that follows it. */
  datatype Op =
    | WriteSuper(copy: nat, s: Super)
    | WriteHeader(slot: nat, copy: nat, at: Ident)
    | WriteData(slot: nat, start: nat, es: seq<Entry>)
    | WriteIndex(slot: nat, items: seq<IndexItem>)
    | WriteFooter(slot: nat, copy: nat, f: Footer)

  // ---------- Selecting among replicated records ----------

  predicate HeaderValid(h: Option<Ident>, store: nat, slot: nat)
  {
    h.Some? && h.value.store == store && h.value.slot == slot
  }

  /** Generation in a slot's header: the greater valid copy, or None when neither copy is valid. */
  function LoadHeader(file: SlotFile, store: nat, slot: nat): Option<nat>
  {
    if HeaderValid(file.h0, store, slot) then
      if HeaderValid(file.h1, store, slot) && file.h1.value.gen > file.h0.value.gen then Some(file.h1.value.gen)
      else Some(file.h0.value.gen)
    else if HeaderValid(file.h1, store, slot) then Some(file.h1.value.gen)
    else None
  }

  /** The last valid footer copy. */
  function LoadFooter(file: SlotFile, at: Ident, g: Geometry): Option<Footer>
  {
    if file.f1.Some? && FooterValid(file.f1.value, at, g) then file.f1
    else if file.f0.Some? && FooterValid(file.f0.value, at, g) then file.f0
    else None
  }

  predicate IndexMatches(file: SlotFile, f: Footer)
  {
    f.indexCount <= |file.index| && file.index[..f.indexCount] == f.image
  }

  predicate SuperValid(s: Super, slots: nat)
  {
    && s.activeSlot < slots
    && 0 < s.oldestGen <= s.activeGen < s.nextGen
    && s.sequence <= SEQUENCE_MASK
    && s.boot <= BOOT_MASK
  }

  predicate CopyValid(c: Option<Super>, slots: nat) { c.Some? && SuperValid(c.value, slots) }

  /** The newest valid superblock. */
  function LoadSuper(d: Disk): Option<Super>
  {
    var n := |d.files|;
    if CopyValid(d.sb0, n) then
      if CopyValid(d.sb1, n) && d.sb1.value.sgen > d.sb0.value.sgen then d.sb1 else d.sb0
    else if CopyValid(d.sb1, n) then d.sb1
    else None
  }

  // ---------- Writing ----------

  /** The records a data write puts down, by offset. */
  function Image(start: nat, es: seq<Entry>): Cells
  {
    if es == [] then map[]
    else
      var k := |es| - 1;
      Image(start, es[..k])[start + Span(es[..k]) := es[k]]
  }

  predicate Outside(o: nat, e: Entry, start: nat, stop: nat) { o + Size(e) <= start || stop <= o }

  function Overwrite(cells: Cells, start: nat, es: seq<Entry>): Cells
  {
    (map o | o in cells && Outside(o, cells[o], start, start + Span(es)) :: cells[o]) + Image(start, es)
  }

  function OverwriteIndex(index: seq<IndexItem>, items: seq<IndexItem>): seq<IndexItem>
  {
    items + if |items| <= |index| then index[|items|..] else []
  }

  function SetHeader(file: SlotFile, copy: nat, h: Option<Ident>): SlotFile
  {
    if copy == 0 then file.(h0 := h) else file.(h1 := h)
  }

  function SetFooter(file: SlotFile, copy: nat, f: Option<Footer>): SlotFile
  {
    if copy == 0 then file.(f0 := f) else file.(f1 := f)
  }

  function SetSuper(d: Disk, copy: nat, s: Option<Super>): Disk
  {
    if copy == 0 then d.(sb0 := s) else d.(sb1 := s)
  }

  predicate OpInRange(op: Op, slots: nat)
  {
    match op
    case WriteSuper(copy, _) => copy < 2
    case WriteHeader(slot, copy, _) => slot < slots && copy < 2
    case WriteData(slot, _, _) => slot < slots
    case WriteIndex(slot, _) => slot < slots
    case WriteFooter(slot, copy, _) => slot < slots && copy < 2
  }

  /** The disk after the write has been synced. */
  function Apply(d: Disk, op: Op): Disk
    requires OpInRange(op, |d.files|)
  {
    match op
    case WriteSuper(copy, s) => SetSuper(d, copy, Some(s))
    case WriteHeader(slot, copy, at) => d.(files := d.files[slot := SetHeader(d.files[slot], copy, Some(at))])
    case WriteData(slot, start, es) =>
      d.(files := d.files[slot := d.files[slot].(cells := Overwrite(d.files[slot].cells, start, es))])
    case WriteIndex(slot, items) =>
      d.(files := d.files[slot := d.files[slot].(index := OverwriteIndex(d.files[slot].index, items))])
    case WriteFooter(slot, copy, f) => d.(files := d.files[slot := SetFooter(d.files[slot], copy, Some(f))])
  }

  // ---------- Crashing during a write ----------

  /** Any subset of the records of an unsynced data write may have arrived; records it overlaps may be destroyed.
      Records that do not overlap it are untouched, and no intact record appears that was never written. */
  ghost predicate TornCells(cells: Cells, start: nat, es: seq<Entry>, after: Cells)
  {
    && (forall o :: o in after ==>
          || (o in cells && after[o] == cells[o])
          || (o in Image(start, es) && after[o] == Image(start, es)[o]))
    && (forall o :: o in cells && Outside(o, cells[o], start, start + Span(es)) ==> o in after && after[o] == cells[o])
  }

  /** The write was lost, was torn, or arrived. */
  predicate TornCopy<T(==)>(old': Option<T>, written: T, after: Option<T>)
  {
    after == old' || after == None || after == Some(written)
  }

  /** `after` is a disk that power loss during the write, before its sync returned, can leave behind. */
  ghost predicate Torn(d: Disk, op: Op, after: Disk)
    requires OpInRange(op, |d.files|)
  {
    match op
    case WriteSuper(copy, s) =>
      exists c :: TornCopy(if copy == 0 then d.sb0 else d.sb1, s, c) && after == SetSuper(d, copy, c)
    case WriteHeader(slot, copy, at) =>
      exists c :: TornCopy(if copy == 0 then d.files[slot].h0 else d.files[slot].h1, at, c) &&
                  after == d.(files := d.files[slot := SetHeader(d.files[slot], copy, c)])
    case WriteData(slot, start, es) =>
      exists c :: TornCells(d.files[slot].cells, start, es, c) &&
                  after == d.(files := d.files[slot := d.files[slot].(cells := c)])
    case WriteIndex(slot, items) =>
      exists c :: after == d.(files := d.files[slot := d.files[slot].(index := c)])
    case WriteFooter(slot, copy, f) =>
      exists c :: TornCopy(if copy == 0 then d.files[slot].f0 else d.files[slot].f1, f, c) &&
                  after == d.(files := d.files[slot := SetFooter(d.files[slot], copy, c)])
  }

  lemma {:induction false} ImageHas(start: nat, es: seq<Entry>, i: nat)
    requires i < |es|
    ensures start + Span(es[..i]) in Image(start, es) && Image(start, es)[start + Span(es[..i])] == es[i]
  {
    var k := |es| - 1;
    var before := es[..k];
    assert Image(start, es) == Image(start, before)[start + Span(before) := es[k]];
    hide Image, Span;
    if i < k {
      assert before[..i] == es[..i] && before[..k] == before;
      ImageHas(start, before, i);
      OffMonotone(before, i, k);
    }
  }

  lemma {:induction false} ImageOnly(start: nat, es: seq<Entry>, o: nat) returns (i: nat)
    requires o in Image(start, es)
    ensures i < |es| && o == start + Span(es[..i]) && Image(start, es)[o] == es[i]
  {
    var k := |es| - 1;
    if o == start + Span(es[..k]) {
      i := k;
    } else {
      i := ImageOnly(start, es[..k], o);
      assert es[..k][..i] == es[..i];
    }
  }

  lemma OverwriteIsTorn(cells: Cells, start: nat, es: seq<Entry>)
    ensures TornCells(cells, start, es, Overwrite(cells, start, es))
  {
    forall o | o in cells && Outside(o, cells[o], start, start + Span(es)) ensures o !in Image(start, es) {
      if o in Image(start, es) {
        assert es[..|es|] == es;
        var i := ImageOnly(start, es, o);
        OffStep(es, i);
        OffMonotone(es, i + 1, |es|);
        assert false;
      }
    }
  }

  /** A completed write is one of the outcomes of a crash just before its sync returned. */
  lemma ApplyIsTorn(d: Disk, op: Op)
    requires OpInRange(op, |d.files|)
    ensures Torn(d, op, Apply(d, op))
  {
    match op
    case WriteSuper(copy, s) => assert TornCopy(if copy == 0 then d.sb0 else d.sb1, s, Some(s));
    case WriteHeader(slot, copy, at) =>
      assert TornCopy(if copy == 0 then d.files[slot].h0 else d.files[slot].h1, at, Some(at));
    case WriteData(slot, start, es) => OverwriteIsTorn(d.files[slot].cells, start, es);
    case WriteIndex(slot, items) =>
    case WriteFooter(slot, copy, f) =>
      assert TornCopy(if copy == 0 then d.files[slot].f0 else d.files[slot].f1, f, Some(f));
  }

  // ---------- Crash during an append: the scan afterwards ----------

  /** Records beyond the run are too old to extend a run that ends with a record of at least `floor`. */
  ghost predicate TailBelow(cells: Cells, at: Ident, es: seq<Entry>, floor: nat)
  {
    forall o :: o in cells && End(es) <= o && cells[o].at == at ==> cells[o].id < floor
  }

  /** `all` is a run of which the first n entries are on disk and the rest are about to be written. */
  ghost predicate NewRun(at: Ident, limit: nat, all: seq<Entry>, n: nat, floor: nat)
  {
    && n <= |all|
    && Increasing(all)
    && End(all) <= limit
    && (forall i :: n <= i < |all| ==> Accepts(all[i], at) && floor <= all[i].id)
  }

  lemma ImageOfRun(all: seq<Entry>, n: nat, i: nat)
    requires n <= i <= |all|
    ensures Off(all, n) + Span(all[n..][..i - n]) == Off(all, i)
    ensures i < |all| ==>
            Off(all, i) in Image(Off(all, n), all[n..]) && Image(Off(all, n), all[n..])[Off(all, i)] == all[i]
  {
    hide Image;
    assert all[..i] == all[..n] + all[n..][..i - n];
    SpanAppend(all[..n], all[n..][..i - n]);
    if i < |all| {
      ImageHas(Off(all, n), all[n..], i - n);
    }
  }

  lemma ImageOfRunOnly(all: seq<Entry>, n: nat, o: nat) returns (i: nat)
    requires n <= |all| && o in Image(Off(all, n), all[n..])
    ensures n <= i < |all| && o == Off(all, i) && Image(Off(all, n), all[n..])[o] == all[i]
  {
    var j := ImageOnly(Off(all, n), all[n..], o);
    i := n + j;
    ImageOfRun(all, n, i);
  }

  lemma OffInjective(es: seq<Entry>, i: nat, j: nat)
    requires i <= |es| && j <= |es| && Off(es, i) == Off(es, j)
    ensures i == j
  {
    if i < j {
      OffMonotone(es, i, j);
    } else {
      OffMonotone(es, j, i);
    }
  }

  /** A run stays readable after a torn append behind it. */
  lemma ChainSurvives(cells: Cells, at: Ident, limit: nat, es: seq<Entry>, more: seq<Entry>, after: Cells)
    requires Chain(cells, at, limit, es) && TornCells(cells, End(es), more, after)
    ensures Chain(after, at, limit, es)
  {
    forall i | 0 <= i < |es| ensures Off(es, i) in after && after[Off(es, i)] == es[i] {
      OffStep(es, i);
      OffMonotone(es, i + 1, |es|);
    }
  }

  lemma PrefixOff(all: seq<Entry>, k: nat, i: nat)
    requires i <= k <= |all|
    ensures Off(all[..k], i) == Off(all, i)
  {
    assert all[..k][..i] == all[..i];
  }

  lemma ChainExtends(cells: Cells, at: Ident, limit: nat, all: seq<Entry>, n: nat, floor: nat, k: nat)
    requires NewRun(at, limit, all, n, floor) && n <= k <= |all| && Chain(cells, at, limit, all[..n])
    requires forall i {:trigger Off(all, i)} :: n <= i < k ==> Off(all, i) in cells && cells[Off(all, i)] == all[i]
    ensures Chain(cells, at, limit, all[..k])
  {
    var run := all[..k];
    PrefixOff(all, k, k);
    OffMonotone(all, k, |all|);
    forall i | 0 <= i < k ensures Off(run, i) in cells && cells[Off(run, i)] == run[i] && Accepts(run[i], at) {
      PrefixOff(all, k, i);
      if i < n {
        PrefixOff(all, n, i);
        assert all[..n][i] == run[i];
      }
    }
  }

  lemma FirstMissing(cells: Cells, all: seq<Entry>, n: nat) returns (k: nat)
    requires n <= |all|
    ensures n <= k <= |all|
    ensures forall i {:trigger Off(all, i)} :: n <= i < k ==> Off(all, i) in cells && cells[Off(all, i)] == all[i]
    ensures k < |all| ==> Off(all, k) !in cells || cells[Off(all, k)] != all[k]
    decreases |all| - n
  {
    if n < |all| && Off(all, n) in cells && cells[Off(all, n)] == all[n] {
      k := FirstMissing(cells, all, n + 1);
    } else {
      k := n;
    }
  }

  /** After a crash during an append, recovery finds the synced run followed by some prefix of the unsynced entries:
      older records that happen to start where the run now ends never continue it. */
  lemma ScanAfterTornAppend(cells: Cells, at: Ident, limit: nat, all: seq<Entry>, n: nat, floor: nat, after: Cells)
    returns (k: nat)
    requires NewRun(at, limit, all, n, floor) && IsScan(cells, at, limit, all[..n]) &&
             TailBelow(cells, at, all[..n], floor)
    requires TornCells(cells, Off(all, n), all[n..], after)
    ensures n <= k <= |all| && IsScan(after, at, limit, all[..k])
  {
    PrefixOff(all, n, n);
    ChainSurvives(cells, at, limit, all[..n], all[n..], after);
    k := FirstMissing(after, all, n);
    ChainExtends(after, at, limit, all, n, floor, k);
    StaleTailStops(cells, at, limit, all, n, floor, after, k);
  }

  lemma StaleTailStops(cells: Cells, at: Ident, limit: nat, all: seq<Entry>, n: nat, floor: nat, after: Cells, k: nat)
    requires NewRun(at, limit, all, n, floor) && IsScan(cells, at, limit, all[..n]) &&
             TailBelow(cells, at, all[..n], floor)
    requires TornCells(cells, Off(all, n), all[n..], after)
    requires n <= k <= |all|
    requires k < |all| ==> Off(all, k) !in after || after[Off(all, k)] != all[k]
    ensures !Continues(after, at, limit, all[..k])
  {
    var off := Off(all, k);
    PrefixOff(all, k, k);
    PrefixOff(all, n, n);
    OffMonotone(all, n, k);
    if off in after && off in Image(Off(all, n), all[n..]) && after[off] == Image(Off(all, n), all[n..])[off] {
      var i := ImageOfRunOnly(all, n, off);
      OffInjective(all, i, k);
      assert false;
    }
    if n < k {
      assert LastId(all[..k]) == all[k - 1].id;
    }
  }

  /** A completed append: the scan returns the whole run, and what lies beyond is still too old to extend it. */
  lemma ScanAfterAppend(cells: Cells, at: Ident, limit: nat, all: seq<Entry>, n: nat, floor: nat)
    requires NewRun(at, limit, all, n, floor) && IsScan(cells, at, limit, all[..n]) &&
             TailBelow(cells, at, all[..n], floor)
    ensures IsScan(Overwrite(cells, Off(all, n), all[n..]), at, limit, all)
    ensures TailBelow(Overwrite(cells, Off(all, n), all[n..]), at, all, floor)
  {
    var after := Overwrite(cells, Off(all, n), all[n..]);
    OverwriteIsTorn(cells, Off(all, n), all[n..]);
    PrefixOff(all, n, n);
    ChainSurvives(cells, at, limit, all[..n], all[n..], after);
    forall i | n <= i < |all| ensures Off(all, i) in after && after[Off(all, i)] == all[i] { ImageOfRun(all, n, i); }
    ChainExtends(after, at, limit, all, n, floor, |all|);
    StaleTailStops(cells, at, limit, all, n, floor, after, |all|);
    assert all[..|all|] == all;
    OffMonotone(all, n, |all|);
    forall o | o in after && End(all) <= o && after[o].at == at ensures after[o].id < floor {
      if o in Image(Off(all, n), all[n..]) {
        var i := ImageOfRunOnly(all, n, o);
        OffMonotone(all, i, |all|);
      }
    }
  }
}
