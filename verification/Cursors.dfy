/** The three cursors: each call reads the next entry from a fresh snapshot, and only a
    delivered entry moves the cursor on. */
module Cursors {
  import opened Layout
  import opened Runs
  import opened Lookup
  import opened ReadFacts
  import opened Searches
  import opened TimeModel
  import opened Catalog
  import opened Utc
  import opened Reader
  import opened Engine
  import opened Memory
  import opened Anchors

  function Nothing(): Entry -> bool { (e: Entry) => false }

  /** What a cursor's outcome does to what is left of it: nothing more after NotFound, everything behind a delivered
      entry, and no change when the payload did not fit or the read failed. */
  ghost predicate MovesOn(es: seq<Entry>, before: Entry -> bool, after: Entry -> bool, r: Read)
  {
    && (r.Found? ==> Advances(es, before, after, r.e))
    && (r == NotFound ==> forall x :: x in es ==> !after(x))
  }

  // ---------- By entry ID ----------

  class EntryRangeCursor {
    var next: U64
    var last: U64
    var finished: bool

    constructor (first: U64, last: U64)
      ensures next == first && this.last == last && !finished
    {
      next, this.last, finished := first, last, false;
    }

    function Left(): Entry -> bool
      reads this
    {
      if finished then Nothing() else InRange(next, last)
    }

    method ReadNext(reader: SnapshotReader, source: Store, room: nat) returns (r: Read)
      requires source.Valid()
      modifies this, reader
      ensures reader.Faces(source.p) ==> Answers(Visible(source.p), old(Left()), room, r)
      ensures MovesOn(Visible(source.p), old(Left()), Left(), r) && last == old(last) && (r == NotFound ==> finished)
      ensures r.TooSmall? || r.Failed? ==> next == old(next) && finished == old(finished)
    {
      hide source.Valid, reader.Undisturbed, reader.Faces, Visible, Answers, IsFirst;
      if finished || next > last {
        finished := true;
        assert Answers(Visible(source.p), old(Left()), room, NotFound) by {
          NothingAnswers(Visible(source.p), old(Left()), room);
        }
        return NotFound;
      }
      reader.TakeSnapshot(source);
      if reader.Faces(source.p) {
        reader.FacesSnapshot(source.p);
      }
      r := reader.ReadEntryInternal(next, last, false, room, source.p);
      if r == NotFound {
        finished := true;
      }
      if !r.Found? {
        return;
      }
      if r.e.id >= last || r.e.id == U64_MAX {
        finished := true;
      } else {
        next := r.e.id + 1;
      }
    }
  }

  lemma NothingAnswers(es: seq<Entry>, want: Entry -> bool, room: nat)
    requires forall x :: !want(x)
    ensures Answers(es, want, room, NotFound)
  {
  }

  // ---------- By boot and uptime ----------

  /** Entries of one boot in an uptime range, from an ID on. */
  function InBootFrom(boot: nat, lo: nat, hi: nat, next: nat): Entry -> bool
  {
    (e: Entry) => next <= e.id && Boot(e.id) == boot && lo <= e.uptime <= hi
  }

  lemma BootWantSame(p: P, boot: nat, lo: nat, hi: nat, next: nat)
    requires Inv(p) && p.mode == Live
    ensures forall x :: x in Visible(p) ==>
            (InBootFrom(boot, lo, hi, next)(x) <==> InBoot(boot, lo, hi, FirstWanted(boot, next))(x))
  {
    forall x | x in Visible(p)
      ensures InBootFrom(boot, lo, hi, next)(x) <==> InBoot(boot, lo, hi, FirstWanted(boot, next))(x)
    {
      VisibleSequenced(p, x);
    }
  }

  lemma ExactFromBoot(p: P, boot: nat, lo: nat, hi: nat, next: nat, room: nat, r: Read)
    requires Inv(p) && p.mode == Live && p.l.segs != []
    requires Exact(View(p), boot, lo, hi, FirstWanted(boot, next), next == 0, room, r)
    ensures !r.Failed? && (Hit(r).Some? ==> Hit(r).value in Visible(p) && r == Deliver(Hit(r).value, room))
    ensures Answers(Visible(p), InBootFrom(boot, lo, hi, next), room, r) <==>
            !(next == 0 && SkipsFirst(View(p), boot, lo, hi, MakeId(boot, 1)))
  {
    ViewRuns(p);
    BootWantSame(p, boot, lo, hi, next);
    hide Inv, Visible, View, SkipsFirst, Flat;
    AnswersSame(Visible(p), InBootFrom(boot, lo, hi, next), InBoot(boot, lo, hi, FirstWanted(boot, next)), room, r);
  }

  predicate IsBootRangeCursorValid(boot: nat, lo: nat, hi: nat, next: nat)
  {
    && 0 < boot <= BOOT_MASK && lo <= hi
    && (next == 0 || (Boot(next) == boot && MakeId(boot, 1) <= next <= BootLast(boot)))
  }

  lemma NextStaysValid(boot: nat, lo: nat, hi: nat, id: nat)
    requires 0 < boot <= BOOT_MASK && lo <= hi && Boot(id) == boot
    ensures id <= BootLast(boot)
    ensures id < BootLast(boot) ==> IsBootRangeCursorValid(boot, lo, hi, id + 1) && id + 1 <= U64_MAX
  {
  }

  class BootUptimeRangeCursor {
    var boot: nat
    var lo: nat
    var hi: nat
    var next: nat
    var finished: bool

    constructor (boot: nat, lo: nat, hi: nat)
      ensures this.boot == boot && this.lo == lo && this.hi == hi && next == 0 && !finished
    {
      this.boot, this.lo, this.hi, next, finished := boot, lo, hi, 0, false;
    }

    predicate IsValid()
      reads this
    {
      IsBootRangeCursorValid(boot, lo, hi, next)
    }

    function Left(): Entry -> bool
      reads this
    {
      if finished then Nothing() else InBootFrom(boot, lo, hi, next)
    }

    /** The first read of the range searches by uptime, and that search can start too late. */
    ghost predicate Skipping(p: P)
      reads this
    {
      !finished && next == 0 && SkipsFirst(View(p), boot, lo, hi, MakeId(boot, 1))
    }

    /** None reports an invalid cursor. The result is right exactly when the search by uptime does not skip. */
    method ReadNext(reader: SnapshotReader, source: Store, room: nat) returns (r: Option<Read>)
      requires source.Valid()
      modifies this, reader
      ensures r == None <==> !old(IsValid())
      ensures r.Some? && reader.Faces(source.p) ==>
              !r.value.Failed? && (Answers(Visible(source.p), old(Left()), room, r.value) <==> !old(Skipping(source.p)))
      ensures r.Some? && Hit(r.value).Some? ==> old(Left())(Hit(r.value).value)
      ensures r.Some? && Hit(r.value).Some? && reader.Faces(source.p) ==>
              Hit(r.value).value in Visible(source.p) && r.value == Deliver(Hit(r.value).value, room)
      ensures r.Some? ==> IsValid() && MovesOn(Visible(source.p), old(Left()), Left(), r.value)
      ensures r == None || r.value.TooSmall? || r.value.Failed? ==> next == old(next) && finished == old(finished)
      ensures r == Some(NotFound) ==> finished
      ensures r.Some? && r.value.Found? ==> finished || next == r.value.e.id + 1
      ensures boot == old(boot) && lo == old(lo) && hi == old(hi)
    {
      hide source.Valid, reader.Undisturbed, reader.Faces, Visible, Answers, IsFirst, Exact, SkipsFirst, View,
           IsBootRangeCursorValid;
      if !IsValid() {
        return None;
      }
      if finished {
        NothingAnswers(Visible(source.p), old(Left()), room);
        return Some(NotFound);
      }
      reader.TakeSnapshot(source);
      if reader.Faces(source.p) {
        reader.FacesSnapshot(source.p);
      }
      var found := reader.ReadBootEntryFromSnapshot(boot, lo, hi, next, room, source.p);
      if reader.Faces(source.p) {
        reader.UndisturbedLive(source.p);
        ExactFromBoot(source.p, boot, lo, hi, next, room, found);
      }
      r := Some(found);
      MoveOn(found, Visible(source.p));
    }

    /** Only a delivered entry moves the cursor on; running out of entries, or of IDs, finishes it. */
    method MoveOn(found: Read, ghost es: seq<Entry>)
      requires IsValid() && !finished
      requires Hit(found).Some? ==> InBoot(boot, lo, hi, FirstWanted(boot, next))(Hit(found).value)
      modifies this`next, this`finished
      ensures IsValid() && MovesOn(es, old(Left()), Left(), found) && (found == NotFound ==> finished)
      ensures found.Found? ==> finished || next == found.e.id + 1
      ensures found.TooSmall? || found.Failed? ==> next == old(next) && finished == old(finished)
    {
      hide IsBootRangeCursorValid;
      CursorFacts(boot, lo, hi, next);
      if found == NotFound {
        finished := true;
      }
      if !found.Found? {
        return;
      }
      NextStaysValid(boot, lo, hi, found.e.id);
      if found.e.id >= BootLast(boot) {
        finished := true;
        LastOfBootDone(es, InBootFrom(boot, lo, hi, next), boot, found.e);
      } else {
        BehindEntry(boot, lo, hi, next, found.e);
        next := found.e.id + 1;
      }
    }
  }

  lemma CursorFacts(boot: nat, lo: nat, hi: nat, next: nat)
    requires IsBootRangeCursorValid(boot, lo, hi, next)
    ensures 0 < boot <= BOOT_MASK && lo <= hi
  {
  }

  lemma LastOfBootDone(es: seq<Entry>, want: Entry -> bool, boot: nat, e: Entry)
    requires (forall x :: want(x) ==> Boot(x.id) == boot) && e.id >= BootLast(boot)
    ensures Advances(es, want, Nothing(), e)
  {
    forall x | x in es ensures !(want(x) && e.id < x.id) {
      BootBounds(x.id, boot);
    }
  }

  lemma BehindEntry(boot: nat, lo: nat, hi: nat, next: nat, e: Entry)
    requires FirstWanted(boot, next) <= e.id
    ensures forall x: Entry :: InBootFrom(boot, lo, hi, e.id + 1)(x) <==>
            InBootFrom(boot, lo, hi, next)(x) && e.id < x.id
  {
  }

  // ---------- By UTC ----------

  datatype UtcInfo = UtcInfo(utc: nat, anchor: Anchor)

  /** The epoch that dates the entry, and the time it gives. */
  ghost predicate DatedBy(es: seq<Epoch>, x: Entry, firstUtc: nat, lastUtc: nat, info: UtcInfo)
  {
    exists m :: 0 <= m < |es| && es[m].anchor == info.anchor && info.anchor.boot == Boot(x.id) &&
                Dated(es[m], x.uptime, firstUtc, lastUtc) && info.utc == UtcAt(info.anchor, x.uptime)
  }

  lemma EntryUtc(es: seq<Epoch>, m: nat, firstUtc: nat, lastUtc: nat, next: nat, x: Entry)
    requires m < |es| && EpochOk(es[m]) && firstUtc <= lastUtc <= U64_MAX
    requires WindowWant(WindowAt(es, m, firstUtc, lastUtc, next))(x)
    ensures x.uptime <= U64_MAX
    ensures var t := Translate(x.uptime, es[m].anchor.monotonic, es[m].anchor.utc);
      t.InWidth? && DatedBy(es, x, firstUtc, lastUtc, UtcInfo(t.value, es[m].anchor))
  {
    WindowMatches(es, m, firstUtc, lastUtc, next, x);
  }

  /** Reads the epochs in order, each through its own window. A matched entry's time always fits: see EntryUtc. */
  method ReadUtcEntry(reader: SnapshotReader, table: EpochTable, firstUtc: U64, lastUtc: U64, next: nat, room: nat,
                      ghost p: P)
    returns (r: Read, info: Option<UtcInfo>)
    requires table.Valid() && Usable(table.Table()) && firstUtc <= lastUtc
    modifies reader`clock, reader`index
    ensures reader.Undisturbed(p) ==> UtcExact(View(p), table.Table(), firstUtc, lastUtc, next, room, r)
    ensures Hit(r).Some? ==> UtcWant(table.Table(), firstUtc, lastUtc, next)(Hit(r).value)
    ensures Hit(r).Some? ==> info.Some? && DatedBy(table.Table(), Hit(r).value, firstUtc, lastUtc, info.value)
  {
    hide reader.Undisturbed, Usable, UtcExact, Going, WindowRead, View, UtcWant, DatedBy, Exact;
    ghost var es := table.Table();
    r, info := NotFound, None;
    GoingStart(View(p), es, firstUtc, lastUtc, next);
    for m := 0 to table.count
      invariant r == NotFound
      invariant reader.Undisturbed(p) ==> Going(View(p), es, m, firstUtc, lastUtc, next)
    {
      UsableAt(es, m);
      var w := MakeUtcBootCursor(table.epochs[m], firstUtc, lastUtc, next);
      if w == None {
        if reader.Undisturbed(p) {
          GoingWithoutWindow(View(p), es, m, firstUtc, lastUtc, next);
        }
        continue;
      }
      r := reader.ReadBootEntryFromSnapshot(w.value.boot, w.value.lo, w.value.hi, w.value.next, room, p);
      if reader.Undisturbed(p) {
        WindowWasRead(View(p), w.value, room, r);
      }
      if r == NotFound {
        if reader.Undisturbed(p) {
          GoingMiss(View(p), es, m, firstUtc, lastUtc, next, room);
        }
        continue;
      }
      if reader.Undisturbed(p) {
        reader.UndisturbedLive(p);
        ViewIsTimely(p);
        OutcomeOfWindow(View(p), es, m, firstUtc, lastUtc, next, room, r);
      }
      if r.Found? || r.TooSmall? {
        InSomeWindow(es, m, firstUtc, lastUtc, next, r.e);
        EntryUtc(es, m, firstUtc, lastUtc, next, r.e);
        var utc := Translate(r.e.uptime, table.epochs[m].anchor.monotonic, table.epochs[m].anchor.utc);
        info := Some(UtcInfo(utc.value, table.epochs[m].anchor));
      }
      return;
    }
    if reader.Undisturbed(p) {
      GoingOver(View(p), es, firstUtc, lastUtc, next, room);
    }
  }

  lemma UsableAt(es: seq<Epoch>, m: nat)
    requires Usable(es) && m < |es|
    ensures EpochOk(es[m])
  {
  }

  lemma WindowWasRead(runs: seq<seq<Entry>>, w: Window, room: nat, r: Read)
    requires Hit(r).Some? ==> InBoot(w.boot, w.lo, w.hi, FirstWanted(w.boot, w.next))(Hit(r).value)
    requires Exact(runs, w.boot, w.lo, w.hi, FirstWanted(w.boot, w.next), w.next == 0, room, r)
    ensures WindowRead(runs, w, room, r)
  {
  }

  lemma InSomeWindow(es: seq<Epoch>, m: nat, firstUtc: nat, lastUtc: nat, next: nat, x: Entry)
    requires Usable(es) && firstUtc <= lastUtc <= U64_MAX && m < |es| && WindowAt(es, m, firstUtc, lastUtc, next).Some?
    requires var w := WindowAt(es, m, firstUtc, lastUtc, next).value;
      InBoot(w.boot, w.lo, w.hi, FirstWanted(w.boot, w.next))(x)
    ensures WindowWant(WindowAt(es, m, firstUtc, lastUtc, next))(x) && UtcWant(es, firstUtc, lastUtc, next)(x)
  {
    assert WindowWant(WindowAt(es, m, firstUtc, lastUtc, next))(x);
    WantIsSomeWindow(es, firstUtc, lastUtc, next, x);
  }

  lemma OutcomeOfWindow(runs: seq<seq<Entry>>, es: seq<Epoch>, m: nat, firstUtc: nat, lastUtc: nat, next: nat,
                        room: nat, r: Read)
    requires m < |es| && Usable(es) && firstUtc <= lastUtc <= U64_MAX && Going(runs, es, m, firstUtc, lastUtc, next)
    requires TimelyList(Flat(runs)) && WindowAt(es, m, firstUtc, lastUtc, next).Some? && r != NotFound
    requires WindowRead(runs, WindowAt(es, m, firstUtc, lastUtc, next).value, room, r)
    ensures Hit(r).Some? && UtcExact(runs, es, firstUtc, lastUtc, next, room, r)
  {
    hide Going, UtcExact;
    assert Hit(r).Some?;
    GoingHit(runs, es, m, firstUtc, lastUtc, next, room, r);
  }

  lemma ViewIsTimely(p: P)
    requires Inv(p) && p.mode == Live && p.l.segs != []
    ensures TimelyList(Flat(View(p)))
  {
    ViewRuns(p);
    VisibleIncreasing(p);
    forall x, y | x in Visible(p) && y in Visible(p) && x.id <= y.id && Boot(x.id) == Boot(y.id)
      ensures x.uptime <= y.uptime
    {
      if x.id < y.id {
        VisibleTimely(p, x, y);
      } else {
        SameIdSame(Visible(p), x, y);
      }
    }
  }

  lemma SameIdSame(es: seq<Entry>, x: Entry, y: Entry)
    requires Increasing(es) && x in es && y in es && x.id == y.id
    ensures x == y
  {
    var i :| 0 <= i < |es| && es[i] == x;
    var j :| 0 <= j < |es| && es[j] == y;
    assert i == j;
  }

  /** Entries that their governing anchor dates within the range, from an ID on. */
  ghost function UtcFrom(es: seq<Epoch>, firstUtc: nat, lastUtc: nat, next: nat): Entry -> bool
  {
    (x: Entry) => next <= x.id && exists m ::
        0 <= m < |es| && es[m].anchor.boot == Boot(x.id) && Dated(es[m], x.uptime, firstUtc, lastUtc)
  }

  lemma UtcWantFrom(es: seq<Epoch>, firstUtc: nat, lastUtc: nat, next: nat, r: Read)
    requires Hit(r).Some? ==> UtcWant(es, firstUtc, lastUtc, next)(Hit(r).value)
    ensures Hit(r).Some? ==> next <= Hit(r).value.id && UtcFrom(es, firstUtc, lastUtc, next)(Hit(r).value)
  {
  }

  lemma UtcWantSame(p: P, es: seq<Epoch>, firstUtc: nat, lastUtc: nat, next: nat)
    requires Inv(p)
    ensures forall x :: x in Visible(p) ==>
            (UtcFrom(es, firstUtc, lastUtc, next)(x) <==> UtcWant(es, firstUtc, lastUtc, next)(x))
  {
    forall x | x in Visible(p)
      ensures UtcFrom(es, firstUtc, lastUtc, next)(x) <==> UtcWant(es, firstUtc, lastUtc, next)(x)
    {
      VisibleSequenced(p, x);
    }
  }

  lemma UtcExactFrom(p: P, es: seq<Epoch>, firstUtc: nat, lastUtc: nat, next: nat, room: nat, r: Read)
    requires Inv(p) && p.mode == Live && p.l.segs != [] && Usable(es) && firstUtc <= lastUtc <= U64_MAX
    requires UtcExact(View(p), es, firstUtc, lastUtc, next, room, r)
    ensures !r.Failed? && (Hit(r).Some? ==> Hit(r).value in Visible(p) && r == Deliver(Hit(r).value, room))
    ensures Answers(Visible(p), UtcFrom(es, firstUtc, lastUtc, next), room, r) <==>
            !UtcSkips(View(p), es, firstUtc, lastUtc, next)
  {
    ViewRuns(p);
    UtcWantSame(p, es, firstUtc, lastUtc, next);
    hide Inv, Visible, View, UtcSkips, Flat, UtcFrom, UtcWant;
    AnswersSame(Visible(p), UtcFrom(es, firstUtc, lastUtc, next), UtcWant(es, firstUtc, lastUtc, next), room, r);
  }

  lemma BehindUtc(es: seq<Epoch>, firstUtc: nat, lastUtc: nat, next: nat, e: Entry)
    requires next <= e.id
    ensures forall x: Entry :: UtcFrom(es, firstUtc, lastUtc, e.id + 1)(x) <==>
            UtcFrom(es, firstUtc, lastUtc, next)(x) && e.id < x.id
  {
  }

  lemma StoreIdsFit(source: Store)
    requires source.Valid()
    ensures forall x :: x in Visible(source.p) ==> x.id <= U64_MAX
  {
    LegalInv(source.run);
    forall x | x in Visible(source.p) ensures x.id <= U64_MAX {
      VisibleFits(source.p, x);
    }
  }

  class UtcRangeCursor {
    var firstUtc: U64
    var lastUtc: U64
    var next: U64
    var finished: bool

    constructor (firstUtc: U64, lastUtc: U64)
      ensures this.firstUtc == firstUtc && this.lastUtc == lastUtc && next == 0 && !finished
    {
      this.firstUtc, this.lastUtc, next, finished := firstUtc, lastUtc, 0, false;
    }

    ghost function Left(table: EpochTable): Entry -> bool
      requires table.Valid()
      reads this, table, table.epochs
    {
      if finished then Nothing() else UtcFrom(table.Table(), firstUtc, lastUtc, next)
    }

    /** None reports an empty range. The result is right exactly when no search by uptime skips the first match. */
    method ReadNext(reader: SnapshotReader, source: Store, table: EpochTable, room: nat)
      returns (r: Option<Read>, info: Option<UtcInfo>)
      requires source.Valid() && table.Valid() && Usable(table.Table())
      modifies this, reader
      ensures r == None <==> old(firstUtc > lastUtc)
      ensures r.Some? && reader.Faces(source.p) ==>
              !r.value.Failed? &&
                (Answers(Visible(source.p), old(Left(table)), room, r.value) <==> !old(Skipping(source.p, table)))
      ensures r.Some? && Hit(r.value).Some? ==> old(Left(table))(Hit(r.value).value)
      ensures r.Some? && Hit(r.value).Some? && reader.Faces(source.p) ==>
              Hit(r.value).value in Visible(source.p) && r.value == Deliver(Hit(r.value).value, room)
      ensures r.Some? ==> MovesOn(Visible(source.p), old(Left(table)), Left(table), r.value)
      ensures r.Some? && r.value.Found? ==>
              (finished <==> r.value.e.id >= U64_MAX) && (!finished ==> next == r.value.e.id + 1)
      ensures r.Some? && r.value.Found? ==> old(next) <= r.value.e.id && !old(finished)
      ensures r.Some? && Hit(r.value).Some? ==>
              info.Some? && DatedBy(table.Table(), Hit(r.value).value, firstUtc, lastUtc, info.value)
      ensures r == None || r.value.TooSmall? || r.value.Failed? ==> next == old(next) && finished == old(finished)
      ensures r == Some(NotFound) ==> finished
      ensures firstUtc == old(firstUtc) && lastUtc == old(lastUtc)
    {
      hide source.Valid, reader.Undisturbed, reader.Faces, Visible, Answers, IsFirst, UtcExact, UtcSkips, View, Usable,
           UtcFrom, DatedBy;
      StoreIdsFit(source);
      info := None;
      if firstUtc > lastUtc {
        return None, info;
      }
      if finished {
        NothingAnswers(Visible(source.p), old(Left(table)), room);
        return Some(NotFound), info;
      }
      var found;
      found, info := Search(reader, source, table, room);
      r := Some(found);
      MoveOn(found, table, Visible(source.p));
    }

    /** Searches a fresh snapshot, without moving the cursor. */
    method Search(reader: SnapshotReader, source: Store, table: EpochTable, room: nat)
      returns (found: Read, info: Option<UtcInfo>)
      requires source.Valid() && table.Valid() && Usable(table.Table()) && firstUtc <= lastUtc && !finished
      modifies reader
      ensures reader.Faces(source.p) ==>
              !found.Failed? &&
                (Answers(Visible(source.p), Left(table), room, found) <==> !Skipping(source.p, table))
      ensures Hit(found).Some? && reader.Faces(source.p) ==>
              Hit(found).value in Visible(source.p) && found == Deliver(Hit(found).value, room)
      ensures Hit(found).Some? ==> next <= Hit(found).value.id && Left(table)(Hit(found).value)
      ensures Hit(found).Some? ==>
              info.Some? && DatedBy(table.Table(), Hit(found).value, firstUtc, lastUtc, info.value)
    {
      hide source.Valid, reader.Undisturbed, reader.Faces, Visible, Answers, IsFirst, UtcExact, UtcSkips, View, Usable,
           UtcFrom, UtcWant, DatedBy;
      reader.TakeSnapshot(source);
      if reader.Faces(source.p) {
        reader.FacesSnapshot(source.p);
      }
      found, info := ReadUtcEntry(reader, table, firstUtc, lastUtc, next, room, source.p);
      UtcWantFrom(table.Table(), firstUtc, lastUtc, next, found);
      if reader.Faces(source.p) {
        reader.UndisturbedLive(source.p);
        UtcExactFrom(source.p, table.Table(), firstUtc, lastUtc, next, room, found);
      }
    }

    /** The first match lies in an epoch entered at its start, where the search by uptime starts too late. */
    ghost predicate Skipping(p: P, table: EpochTable)
      requires table.Valid() && Usable(table.Table())
      reads this, table, table.epochs
    {
      !finished && firstUtc <= lastUtc && UtcSkips(View(p), table.Table(), firstUtc, lastUtc, next)
    }

    /** Somewhere in what is left, a boot's first match is skipped. */
    ghost predicate EverSkipping(p: P, table: EpochTable)
      requires table.Valid() && Usable(table.Table())
      reads this, table, table.epochs
    {
      !finished && firstUtc <= lastUtc && EverSkips(View(p), table.Table(), firstUtc, lastUtc, next)
    }

    method MoveOn(found: Read, ghost table: EpochTable, ghost es: seq<Entry>)
      requires !finished && table.Valid() && firstUtc <= lastUtc && forall x :: x in es ==> x.id <= U64_MAX
      requires Hit(found).Some? ==> next <= Hit(found).value.id
      modifies this`next, this`finished
      ensures MovesOn(es, old(Left(table)), Left(table), found) && (found == NotFound ==> finished)
      ensures found.Found? ==> (finished <==> found.e.id >= U64_MAX) && (!finished ==> next == found.e.id + 1)
      ensures found.TooSmall? || found.Failed? ==> next == old(next) && finished == old(finished)
    {
      if found == NotFound {
        finished := true;
      }
      if !found.Found? {
        return;
      }
      if found.e.id >= U64_MAX {
        finished := true;
      } else {
        BehindUtc(table.Table(), firstUtc, lastUtc, next, found.e);
        next := found.e.id + 1;
      }
    }
  }

  // ---------- What repeated reads yield ----------

  ghost predicate StrictStore(p: P)
  {
    forall x, y {:trigger x in Visible(p), y in Visible(p)} ::
      x in Visible(p) && y in Visible(p) && x.id < y.id && Boot(x.id) == Boot(y.id) ==> x.uptime < y.uptime
  }

  /** With uptimes that strictly increase within each boot, the search by uptime never skips. */
  lemma StrictStoreNeverSkips(p: P, boot: nat, lo: nat, hi: nat, first: nat)
    requires Inv(p) && p.mode == Live && p.l.segs != [] && StrictStore(p)
    ensures !SkipsFirst(View(p), boot, lo, hi, first)
  {
    ViewRuns(p);
    ViewSorted(p);
    hide Inv, View, Visible;
    forall k | 0 <= k < |View(p)| ensures !Skips(View(p)[k], boot, lo, hi, first) {
      var run := View(p)[k];
      forall i, j | 0 <= i < j < |run| && Boot(run[i].id) == Boot(run[j].id) ensures run[i].uptime < run[j].uptime {
        FlatMember(View(p), run[i]);
        FlatMember(View(p), run[j]);
      }
      StrictNeverSkips(run, boot, lo, hi, first);
    }
  }

  lemma StrictStoreNeverSkipsUtc(p: P, es: seq<Epoch>, firstUtc: nat, lastUtc: nat, next: nat)
    requires Inv(p) && p.mode == Live && p.l.segs != [] && StrictStore(p) && Usable(es) &&
             firstUtc <= lastUtc <= U64_MAX
    ensures !UtcSkips(View(p), es, firstUtc, lastUtc, next) && !EverSkips(View(p), es, firstUtc, lastUtc, next)
  {
    forall m | 0 <= m < |es|
      ensures !UtcSkipsAt(View(p), es, m, firstUtc, lastUtc, next)
      ensures !BootSkipsAt(View(p), es, m, firstUtc, lastUtc, next)
    {
      var w := WindowAt(es, m, firstUtc, lastUtc, next);
      if w.Some? {
        StrictStoreNeverSkips(p, w.value.boot, w.value.lo, w.value.hi, FirstWanted(w.value.boot, 0));
      }
    }
  }

  lemma {:induction false} FilterIncreasing(es: seq<Entry>, want: Entry -> bool)
    requires Increasing(es)
    ensures Increasing(Filter(es, want))
  {
    if es != [] {
      assert Increasing(es[1..]);
      FilterIncreasing(es[1..], want);
      FilterMembers(es[1..], want);
      forall i | 0 <= i < |Filter(es[1..], want)| ensures es[0].id < Filter(es[1..], want)[i].id {
        assert Filter(es[1..], want)[i] in es[1..];
      }
    }
  }

  /** `got` holds exactly the visible entries that `want` accepts, each once, in increasing ID. */
  ghost predicate Yields(p: P, want: Entry -> bool, got: seq<Entry>)
  {
    Increasing(got) && forall x :: x in got <==> x in Visible(p) && want(x)
  }

  /** The filter of what can be read is exactly that. */
  lemma FilterYields(p: P, want: Entry -> bool)
    requires Inv(p)
    ensures Yields(p, want, Filter(Visible(p), want))
  {
    VisibleIncreasing(p);
    FilterMembers(Visible(p), want);
    FilterIncreasing(Visible(p), want);
  }

  /** For a UTC range these are the entries that the anchor governing their boot and uptime dates within the range. */
  lemma UtcFilterYields(p: P, anchors: set<Anchor>, es: seq<Epoch>, firstUtc: nat, lastUtc: nat, next: nat,
                        got: seq<Entry>)
    requires Inv(p) && Catalogued(anchors, es) && Bounded(es)
    requires got == Filter(Visible(p), UtcFrom(es, firstUtc, lastUtc, next))
    ensures Increasing(got)
    ensures forall x :: x in got <==> x in Visible(p) && next <= x.id && GovernedWithin(anchors, x, firstUtc, lastUtc)
  {
    FilterYields(p, UtcFrom(es, firstUtc, lastUtc, next));
    UtcWantSame(p, es, firstUtc, lastUtc, next);
    forall x | x in Visible(p)
      ensures UtcFrom(es, firstUtc, lastUtc, next)(x) <==> next <= x.id && GovernedWithin(anchors, x, firstUtc, lastUtc)
    {
      VisibleFits(p, x);
      UtcWantIsGoverned(anchors, es, firstUtc, lastUtc, next, x);
      VisibleSequenced(p, x);
    }
  }

  ghost predicate GovernedWithin(anchors: set<Anchor>, x: Entry, firstUtc: nat, lastUtc: nat)
  {
    exists a :: Governs(anchors, a, Boot(x.id), x.uptime) && firstUtc <= UtcAt(a, x.uptime) <= lastUtc
  }

  // ---------- Reading to the end ----------

  ghost predicate AllFit(p: P, room: nat) { forall x :: x in Visible(p) ==> |x.payload| <= room }

  /** One read either takes the head off what is left, or finds that nothing is left. */
  lemma ReadTakesHead(p: P, before: Entry -> bool, after: Entry -> bool, room: nat, r: Read)
    requires Inv(p) && AllFit(p, room) && Answers(Visible(p), before, room, r) && MovesOn(Visible(p), before, after, r)
    ensures r.Found? || r == NotFound
    ensures r.Found? ==> Filter(Visible(p), before) == [r.e] + Filter(Visible(p), after)
    ensures r == NotFound ==> Filter(Visible(p), before) == []
  {
    VisibleIncreasing(p);
    hide Inv, Visible;
    if Hit(r).Some? {
      assert Hit(r).value in Visible(p);
      FilterFirst(Visible(p), before, after, r.e);
    } else {
      FilterNone(Visible(p), before);
    }
  }

  /** Reads a cursor until it reports that nothing is left. It gets exactly what the cursor's range asked for, each
      entry once, in increasing ID, and the cursor is finished. */
  method ReadAll(cursor: EntryRangeCursor, reader: SnapshotReader, source: Store, room: nat) returns (got: seq<Entry>)
    requires source.Valid() && reader.Faces(source.p) && AllFit(source.p, room)
    modifies cursor, reader
    ensures got == Filter(Visible(source.p), old(cursor.Left())) && Yields(source.p, old(cursor.Left()), got)
    ensures cursor.finished
  {
    hide source.Valid, reader.Faces, Inv, Visible, Yields, Answers, MovesOn, AllFit, Filter;
    StoreInv(source);
    ghost var all, left := Visible(source.p), cursor.Left();
    FilterYields(source.p, left);
    got := [];
    while true
      invariant got + Filter(all, cursor.Left()) == Filter(all, left)
      decreases |Filter(all, cursor.Left())|
    {
      ghost var before := cursor.Left();
      var r := cursor.ReadNext(reader, source, room);
      ReadTakesHead(source.p, before, cursor.Left(), room, r);
      if r == NotFound {
        return;
      }
      got := got + [r.e];
    }
  }

  /** The same for a boot and uptime range that is resumed, or whose first read does not skip. */
  method ReadOn(cursor: BootUptimeRangeCursor, reader: SnapshotReader, source: Store, room: nat)
    returns (got: seq<Entry>)
    requires source.Valid() && reader.Faces(source.p) && AllFit(source.p, room)
    requires cursor.IsValid() && !cursor.Skipping(source.p)
    modifies cursor, reader
    ensures got == Filter(Visible(source.p), old(cursor.Left())) && cursor.finished
  {
    hide source.Valid, reader.Faces, Inv, Visible, Answers, MovesOn, AllFit, Filter, SkipsFirst,
         IsBootRangeCursorValid;
    StoreInv(source);
    ghost var all, left := Visible(source.p), cursor.Left();
    got := [];
    while true
      invariant cursor.IsValid() && !cursor.Skipping(source.p)
      invariant got + Filter(all, cursor.Left()) == Filter(all, left)
      decreases |Filter(all, cursor.Left())|
    {
      ghost var before := cursor.Left();
      var r := cursor.ReadNext(reader, source, room);
      ReadTakesHead(source.p, before, cursor.Left(), room, r.value);
      if r == Some(NotFound) {
        return;
      }
      got := got + [r.value.e];
    }
  }

  /** A read that may skip takes off what it skipped as well; it answers exactly when it skipped nothing. */
  lemma ReadTakes(p: P, before: Entry -> bool, after: Entry -> bool, room: nat, r: Read) returns (skipped: seq<Entry>)
    requires Inv(p) && AllFit(p, room) && MovesOn(Visible(p), before, after, r) && !r.Failed?
    requires Hit(r).Some? ==> Hit(r).value in Visible(p) && before(Hit(r).value) && r == Deliver(Hit(r).value, room)
    ensures r.Found? || r == NotFound
    ensures Filter(Visible(p), before) == skipped + if r.Found? then [r.e] + Filter(Visible(p), after) else []
    ensures skipped == [] <==> Answers(Visible(p), before, room, r)
    ensures r.Found? ==> r.e in Visible(p) && before(r.e) && Advances(Visible(p), before, after, r.e)
  {
    VisibleIncreasing(p);
    hide Inv, Visible;
    if Hit(r).Some? {
      skipped := FilterBehind(Visible(p), before, after, r.e);
      FilterBehindFirst(Visible(p), before, after, r.e, skipped);
    } else {
      skipped := Filter(Visible(p), before);
      FilterMembers(Visible(p), before);
      if skipped != [] {
        assert skipped[0] in skipped;
      }
    }
  }

  /** The same for a boot and uptime range read from its start. Whatever happens the result is the end of what the range
      asks for, each entry once, in order; it is all of it exactly when the first read does not skip, which with
      strictly increasing uptimes it never does. */
  method ReadAllByUptime(cursor: BootUptimeRangeCursor, reader: SnapshotReader, source: Store, room: nat)
    returns (got: seq<Entry>)
    requires source.Valid() && reader.Faces(source.p) && AllFit(source.p, room) && cursor.IsValid()
    modifies cursor, reader
    ensures EndsWith(Filter(Visible(source.p), old(cursor.Left())), got) && cursor.finished
    ensures got == Filter(Visible(source.p), old(cursor.Left())) <==> !old(cursor.Skipping(source.p))
  {
    hide source.Valid, reader.Faces, Inv, Visible, Answers, MovesOn, AllFit, Filter, SkipsFirst,
         IsBootRangeCursorValid;
    StoreInv(source);
    ghost var before := cursor.Left();
    var r := cursor.ReadNext(reader, source, room);
    ghost var skipped := ReadTakes(source.p, before, cursor.Left(), room, r.value);
    got := [];
    if r.value.Found? {
      var rest := ReadOn(cursor, reader, source, room);
      got := [r.value.e] + rest;
    }
  }

  /** How one UTC read bears on whether the rest of the range is read without a skip. */
  lemma EverAfterRead(p: P, es: seq<Epoch>, firstUtc: nat, lastUtc: nat, next: nat, room: nat, r: Read)
    requires Inv(p) && p.mode == Live && p.l.segs != [] && Usable(es) && firstUtc <= lastUtc <= U64_MAX
    requires Answers(Visible(p), UtcFrom(es, firstUtc, lastUtc, next), room, r)
    requires !UtcSkips(View(p), es, firstUtc, lastUtc, next)
    ensures r == NotFound ==> !EverSkips(View(p), es, firstUtc, lastUtc, next)
    ensures r.Found? && next <= r.e.id && r.e.id < U64_MAX ==>
      (EverSkips(View(p), es, firstUtc, lastUtc, next) <==> EverSkips(View(p), es, firstUtc, lastUtc, r.e.id + 1))
    ensures r.Found? && next <= r.e.id && r.e.id >= U64_MAX ==> !EverSkips(View(p), es, firstUtc, lastUtc, next)
  {
    hide Inv, Visible, View, UtcSkips, EverSkips, Flat, UtcFrom, UtcWant;
    ViewRuns(p);
    UtcWantSame(p, es, firstUtc, lastUtc, next);
    VisibleIdsFit(p);
    AnswersSame(Visible(p), UtcFrom(es, firstUtc, lastUtc, next), UtcWant(es, firstUtc, lastUtc, next), room, r);
    if r == NotFound {
      NothingToSkip(View(p), es, firstUtc, lastUtc, next);
    } else if r.Found? && next <= r.e.id {
      EverMovesOn(View(p), es, firstUtc, lastUtc, next, r.e);
      if r.e.id >= U64_MAX {
        NothingBehind(View(p), es, firstUtc, lastUtc, r.e.id + 1);
      }
    }
  }

  lemma VisibleIdsFit(p: P)
    requires Inv(p)
    ensures forall x :: x in Visible(p) ==> x.id <= U64_MAX
  {
    forall x | x in Visible(p) ensures x.id <= U64_MAX {
      VisibleFits(p, x);
    }
  }

  lemma NothingBehind(runs: seq<seq<Entry>>, es: seq<Epoch>, firstUtc: nat, lastUtc: nat, next: nat)
    requires Usable(es) && firstUtc <= lastUtc <= U64_MAX && forall x :: x in Flat(runs) ==> x.id < next
    ensures !EverSkips(runs, es, firstUtc, lastUtc, next)
  {
    NothingToSkip(runs, es, firstUtc, lastUtc, next);
  }

  /** The part of a UTC range read so far: entries of the range in order, all before what is left, and `lost` of them
      missing. */
  ghost predicate ReadSoFar(all: seq<Entry>, want: Entry -> bool, left: Entry -> bool, got: seq<Entry>, lost: nat)
  {
    && Increasing(got) && (forall x :: x in got ==> x in all && want(x))
    && (forall x :: x in all && left(x) ==> want(x) && forall y :: y in got ==> y.id < x.id)
    && |Filter(all, want)| == |got| + lost + |Filter(all, left)|
    && (lost == 0 ==> Filter(all, want) == got + Filter(all, left))
  }

  lemma ReadSoFarStep(all: seq<Entry>, want: Entry -> bool, before: Entry -> bool, after: Entry -> bool,
                      got: seq<Entry>, lost: nat, skipped: seq<Entry>, e: Entry)
    requires ReadSoFar(all, want, before, got, lost) && e in all && before(e) && Advances(all, before, after, e)
    requires Filter(all, before) == skipped + ([e] + Filter(all, after))
    ensures ReadSoFar(all, want, after, got + [e], lost + |skipped|)
  {
    hide Filter;
    if lost + |skipped| == 0 {
      assert skipped == [];
      assert got + ([e] + Filter(all, after)) == got + [e] + Filter(all, after);
    }
  }

  lemma ReadSoFarEnds(all: seq<Entry>, want: Entry -> bool, before: Entry -> bool, got: seq<Entry>, lost: nat)
    requires ReadSoFar(all, want, before, got, lost)
    ensures got == Filter(all, want) <==> lost + |Filter(all, before)| == 0
  {
    hide Filter;
  }

  /** The same for a UTC range; each entry comes with the date its epoch gives it. What is read is of the range, each
      entry once, in increasing ID; it is all of it exactly when no boot's first match is skipped. */
  method ReadAllDated(cursor: UtcRangeCursor, reader: SnapshotReader, source: Store, table: EpochTable, room: nat)
    returns (got: seq<Entry>, infos: seq<UtcInfo>)
    requires source.Valid() && reader.Faces(source.p) && AllFit(source.p, room)
    requires table.Valid() && Usable(table.Table()) && cursor.firstUtc <= cursor.lastUtc
    modifies cursor, reader
    ensures Increasing(got) && forall x :: x in got ==> x in Visible(source.p) && old(cursor.Left(table))(x)
    ensures got == Filter(Visible(source.p), old(cursor.Left(table))) <==> !old(cursor.EverSkipping(source.p, table))
    ensures cursor.finished && |infos| == |got|
    ensures forall i :: 0 <= i < |got| ==>
      DatedBy(table.Table(), got[i], old(cursor.firstUtc), old(cursor.lastUtc), infos[i])
  {
    hide source.Valid, reader.Faces, Inv, Visible, Answers, MovesOn, AllFit, Filter, Usable, DatedBy, UtcFrom, UtcSkips,
         EverSkips, View, ReadSoFar;
    StoreInv(source);
    ghost var all, left, es := Visible(source.p), cursor.Left(table), table.Table();
    ghost var ever := cursor.EverSkipping(source.p, table);
    ghost var lost: nat := 0;
    got, infos := [], [];
    NothingRead(all, left);
    while true
      invariant cursor.firstUtc == old(cursor.firstUtc) && cursor.lastUtc == old(cursor.lastUtc)
      invariant ReadSoFar(all, left, cursor.Left(table), got, lost)
      invariant lost > 0 ==> ever
      invariant lost == 0 ==> (ever <==> cursor.EverSkipping(source.p, table))
      invariant |infos| == |got| && forall i :: 0 <= i < |got| ==>
                DatedBy(es, got[i], cursor.firstUtc, cursor.lastUtc, infos[i])
      decreases |Filter(all, cursor.Left(table))|
    {
      ghost var before, next, done := cursor.Left(table), cursor.next, cursor.finished;
      ghost var skips, coming := cursor.Skipping(source.p, table), cursor.EverSkipping(source.p, table);
      var r, info := cursor.ReadNext(reader, source, table, room);
      ghost var skipped := ReadTakes(source.p, before, cursor.Left(table), room, r.value);
      if skips {
        SkipIsEver(View(source.p), es, cursor.firstUtc, cursor.lastUtc, next);
      } else if !done {
        EverAfterRead(source.p, es, cursor.firstUtc, cursor.lastUtc, next, room, r.value);
      }
      if r == Some(NotFound) {
        ReadSoFarEnds(all, left, before, got, lost);
        FilteredOf(all, left, before, got, lost);
        return;
      }
      ReadSoFarStep(all, left, before, cursor.Left(table), got, lost, skipped, r.value.e);
      lost := lost + |skipped|;
      got, infos := got + [r.value.e], infos + [info.value];
    }
  }

  lemma NothingRead(all: seq<Entry>, want: Entry -> bool)
    ensures ReadSoFar(all, want, want, [], 0)
  {
    assert [] + Filter(all, want) == Filter(all, want);
  }

  lemma FilteredOf(all: seq<Entry>, want: Entry -> bool, before: Entry -> bool, got: seq<Entry>, lost: nat)
    requires ReadSoFar(all, want, before, got, lost)
    ensures Increasing(got) && forall x :: x in got ==> x in all && want(x)
  {
  }

  /** With a valid anchor ring behind the catalog: only entries that the ring's anchors, through the one that
      governs each, date within the range, and all of them exactly when no boot's first match is skipped, which with
      strictly increasing uptimes it never is. */
  method ReadAllByUtc(cursor: UtcRangeCursor, reader: SnapshotReader, ring: AnchorRing, room: nat)
    returns (got: seq<Entry>, infos: seq<UtcInfo>)
    requires ring.Valid() && reader.Faces(ring.source.p) && AllFit(ring.source.p, room)
    requires cursor.firstUtc <= cursor.lastUtc && !cursor.finished
    modifies cursor, reader
    ensures ring.table.Valid() && Usable(ring.table.Table()) && Increasing(got) && cursor.finished
    ensures var want :=
            RingWant(ring.source.p, RingAnchors(ring.slots), old(cursor.firstUtc), old(cursor.lastUtc),
                     old(cursor.next));
      && (forall x :: x in got ==> want(x))
      && ((forall x :: want(x) ==> x in got) <==>
            !EverSkips(View(ring.source.p), ring.table.Table(), old(cursor.firstUtc), old(cursor.lastUtc),
                       old(cursor.next)))
    ensures StrictStore(ring.source.p) ==>
      !EverSkips(View(ring.source.p), ring.table.Table(), old(cursor.firstUtc), old(cursor.lastUtc), old(cursor.next))
    ensures |infos| == |got|
    ensures forall i :: 0 <= i < |got| ==>
      DatedBy(ring.table.Table(), got[i], old(cursor.firstUtc), old(cursor.lastUtc), infos[i])
  {
    hide ring.Valid, ring.source.Valid, reader.Faces, Inv, Visible, AllFit, Filter, Catalogued, Bounded, Usable,
         GovernedWithin, DatedBy, UtcFrom, StrictStore, Increasing;
    RingReadable(ring);
    StoreInv(ring.source);
    ghost var es, next, first, last := ring.table.Table(), cursor.next, cursor.firstUtc, cursor.lastUtc;
    got, infos := ReadAllDated(cursor, reader, ring.source, ring.table, room);
    RingWantIsFilter(ring.source.p, RingAnchors(ring.slots), es, first, last, next, got);
    if StrictStore(ring.source.p) {
      StrictStoreNeverSkipsUtc(ring.source.p, es, first, last, next);
    }
  }

  /** What a UTC range asks for: readable entries from an ID on that their governing anchor dates within it. */
  ghost function RingWant(p: P, anchors: set<Anchor>, firstUtc: nat, lastUtc: nat, next: nat): Entry -> bool
  {
    (x: Entry) => x in Visible(p) && next <= x.id && GovernedWithin(anchors, x, firstUtc, lastUtc)
  }

  lemma RingWantIsFilter(p: P, anchors: set<Anchor>, es: seq<Epoch>, firstUtc: nat, lastUtc: nat, next: nat,
                         got: seq<Entry>)
    requires Inv(p) && Catalogued(anchors, es) && Bounded(es) && Increasing(got)
    requires forall x :: x in got ==> x in Visible(p) && UtcFrom(es, firstUtc, lastUtc, next)(x)
    ensures forall x :: x in got ==> RingWant(p, anchors, firstUtc, lastUtc, next)(x)
    ensures got == Filter(Visible(p), UtcFrom(es, firstUtc, lastUtc, next)) <==>
            forall x :: RingWant(p, anchors, firstUtc, lastUtc, next)(x) ==> x in got
  {
    var all := Filter(Visible(p), UtcFrom(es, firstUtc, lastUtc, next));
    UtcFilterYields(p, anchors, es, firstUtc, lastUtc, next, all);
    FilterMembers(Visible(p), UtcFrom(es, firstUtc, lastUtc, next));
    hide Inv, Visible, Filter, UtcFrom, GovernedWithin, Catalogued, Bounded;
    if forall x :: RingWant(p, anchors, firstUtc, lastUtc, next)(x) ==> x in got {
      IncreasingSame(got, all);
    }
  }

  lemma {:induction false} IncreasingSame(a: seq<Entry>, b: seq<Entry>)
    requires Increasing(a) && Increasing(b) && forall x :: x in a <==> x in b
    ensures a == b
  {
    SameEmpty(a, b);
    if a != [] {
      SameHead(a, b);
      LaterInIncreasing(a);
      LaterInIncreasing(b);
      assert a == [a[0]] + a[1..] && b == [b[0]] + b[1..];
      IncreasingSame(a[1..], b[1..]);
    }
  }

  lemma SameEmpty(a: seq<Entry>, b: seq<Entry>)
    requires forall x :: x in a <==> x in b
    ensures a == [] <==> b == []
  {
    if a != [] {
      assert a[0] in b;
    }
    if b != [] {
      assert b[0] in a;
    }
  }

  lemma SameHead(a: seq<Entry>, b: seq<Entry>)
    requires Increasing(a) && Increasing(b) && a != [] && b != [] && forall x :: x in a <==> x in b
    ensures a[0] == b[0]
  {
    assert a[0] in b && b[0] in a;
  }

  lemma StoreInv(source: Store)
    requires source.Valid()
    ensures Inv(source.p) && source.p.mode == Live && source.p.l.segs != []
  {
    LegalInv(source.run);
    InvShape(source.p);
  }

  lemma RingReadable(ring: AnchorRing)
    requires ring.Valid()
    ensures ring.source.Valid() && ring.table.Valid() && Usable(ring.table.Table())
    ensures Catalogued(RingAnchors(ring.slots), ring.table.Table()) && Bounded(ring.table.Table())
  {
    hide ring.source.Valid, Inv;
    RingSound(R(ring.source.p, ring.slots, ring.issued));
    CatalogUsable(RingAnchors(ring.slots), ring.table.Table());
  }
}
