/** Reading by UTC range: from UTC windows to uptime windows, and through the epochs in order. */
module Utc {
  import opened Layout
  import opened Lookup
  import opened Searches
  import opened TimeModel

  // ---------- Timestamps ----------

  datatype Translation = InWidth(value: nat) | BelowZero | AboveMax

  /** Moves a timestamp from one origin to another in 64 bits, without ever wrapping. */
  function Translate(value: nat, fromOrigin: nat, toOrigin: nat): (r: Translation)
    requires value <= U64_MAX && fromOrigin <= U64_MAX && toOrigin <= U64_MAX
    ensures var exact := value - fromOrigin + toOrigin;
      r == if exact < 0 then BelowZero else if exact > U64_MAX then AboveMax else InWidth(exact)
  {
    if value >= fromOrigin then
      var delta := value - fromOrigin;
      if delta > U64_MAX - toOrigin then AboveMax else InWidth(toOrigin + delta)
    else
      var delta := fromOrigin - value;
      if delta > toOrigin then BelowZero else InWidth(toOrigin - delta)
  }

  /** The exact UTC time an anchor gives to an uptime; it need not fit 64 bits, or be positive. */
  function UtcAt(a: Anchor, uptime: nat): int { uptime - a.monotonic + a.utc }

  /** A stretch of one boot's uptime, read from its start (next == 0) or resumed at an ID. */
  datatype Window = Window(boot: nat, lo: nat, hi: nat, next: nat)

  predicate EpochOk(e: Epoch)
  {
    e.first <= e.last <= U64_MAX && e.anchor.monotonic <= U64_MAX && e.anchor.utc <= U64_MAX
  }

  /** The uptimes of the epoch that the UTC range reaches, before the resume position is looked at. */
  function UptimesOf(e: Epoch, firstUtc: nat, lastUtc: nat): Option<(nat, nat)>
    requires EpochOk(e) && firstUtc <= lastUtc <= U64_MAX
  {
    var first := Translate(firstUtc, e.anchor.utc, e.anchor.monotonic);
    var last := Translate(lastUtc, e.anchor.utc, e.anchor.monotonic);
    if first.AboveMax? || last.BelowZero? then None
    else
      var lo := if first.BelowZero? || first.value < e.first then e.first else first.value;
      var hi := if last.AboveMax? || last.value > e.last then e.last else last.value;
      if lo > hi then None else Some((lo, hi))
  }

  function MakeUtcBootCursor(e: Epoch, firstUtc: nat, lastUtc: nat, next: nat): Option<Window>
    requires EpochOk(e) && firstUtc <= lastUtc <= U64_MAX
  {
    match UptimesOf(e, firstUtc, lastUtc)
    case None => None
    case Some((lo, hi)) =>
      if next != 0 && Boot(next) > e.anchor.boot then None
      else Some(Window(e.anchor.boot, lo, hi, if next != 0 && Boot(next) == e.anchor.boot then next else 0))
  }

  predicate Dated(e: Epoch, uptime: nat, firstUtc: nat, lastUtc: nat)
  {
    e.first <= uptime <= e.last && firstUtc <= UtcAt(e.anchor, uptime) <= lastUtc
  }

  /** The window holds exactly the epoch's uptimes whose exact UTC lies in the range; there
      is none when no uptime does. */
  lemma UptimesAreExact(e: Epoch, firstUtc: nat, lastUtc: nat)
    requires EpochOk(e) && firstUtc <= lastUtc <= U64_MAX
    ensures match UptimesOf(e, firstUtc, lastUtc)
      case None => forall u: nat :: !Dated(e, u, firstUtc, lastUtc)
      case Some((lo, hi)) => lo <= hi && forall u: nat :: lo <= u <= hi <==> Dated(e, u, firstUtc, lastUtc)
  {
  }

  // ---------- What a UTC lookup looks for ----------

  /** Every table the catalog pipeline produces can be read through. */
  lemma CatalogUsable(anchors: set<Anchor>, es: seq<Epoch>)
    requires Sound(anchors) && Catalogued(anchors, es) && Bounded(es)
    ensures Usable(es)
  {
    forall i | 0 <= i < |es| ensures EpochOk(es[i]) {
      assert es[i] in es && BoundedAt(es, i);
      assert es[i].anchor in anchors && Root(anchors, es[i].anchor).value in anchors;
      if !LastOfBoot(es, i) {
        assert es[i + 1] in es && Apart(es[i], es[i + 1]);
        assert Root(anchors, es[i + 1].anchor).value in anchors;
      }
    }
  }

  /** Not before the resume position; a boot not resumed in is entered at its first ID. */
  predicate Reached(id: nat, next: nat)
  {
    next <= id && ((next != 0 && Boot(id) == Boot(next)) || MakeId(Boot(id), 1) <= id)
  }

  function WindowWant(w: Option<Window>): Entry -> bool
  {
    (x: Entry) =>
      w.Some? && FirstWanted(w.value.boot, w.value.next) <= x.id && Boot(x.id) == w.value.boot &&
        w.value.lo <= x.uptime <= w.value.hi
  }

  ghost predicate Usable(es: seq<Epoch>)
  {
    Ascending(es) && Bounded(es) && forall i :: 0 <= i < |es| ==> EpochOk(es[i])
  }

  /** Entries whose epoch dates them within the range. */
  ghost function UtcWant(es: seq<Epoch>, firstUtc: nat, lastUtc: nat, next: nat): Entry -> bool
  {
    (x: Entry) =>
      Reached(x.id, next) && exists m ::
          0 <= m < |es| && es[m].anchor.boot == Boot(x.id) && Dated(es[m], x.uptime, firstUtc, lastUtc)
  }

  function WindowAt(es: seq<Epoch>, m: nat, firstUtc: nat, lastUtc: nat, next: nat): Option<Window>
    requires m < |es| && EpochOk(es[m]) && firstUtc <= lastUtc <= U64_MAX
  {
    MakeUtcBootCursor(es[m], firstUtc, lastUtc, next)
  }

  lemma BootOrder(a: nat, b: nat)
    ensures Boot(a) < Boot(b) ==> a < MakeId(Boot(b), 0) <= b
    ensures MakeId(Boot(a), 0) <= a < MakeId(Boot(a) + 1, 0)
  {
  }

  /** One epoch's window asks for the entries that this epoch dates within the range. */
  lemma WindowMatches(es: seq<Epoch>, m: nat, firstUtc: nat, lastUtc: nat, next: nat, x: Entry)
    requires m < |es| && EpochOk(es[m]) && firstUtc <= lastUtc <= U64_MAX
    ensures WindowWant(WindowAt(es, m, firstUtc, lastUtc, next))(x) <==>
            Reached(x.id, next) && es[m].anchor.boot == Boot(x.id) && Dated(es[m], x.uptime, firstUtc, lastUtc)
  {
    UptimesAreExact(es[m], firstUtc, lastUtc);
    BootOrder(next, x.id);
    BootOrder(x.id, next);
    var w := WindowAt(es, m, firstUtc, lastUtc, next);
    if w.Some? {
      var (lo, hi) := UptimesOf(es[m], firstUtc, lastUtc).value;
      assert w.value.lo == lo && w.value.hi == hi && w.value.boot == es[m].anchor.boot;
      assert lo <= x.uptime <= hi <==> Dated(es[m], x.uptime, firstUtc, lastUtc);
      assert w.value.boot == Boot(x.id) ==> (FirstWanted(w.value.boot, w.value.next) <= x.id <==> Reached(x.id, next));
      assert WindowWant(w)(x) <==>
             FirstWanted(w.value.boot, w.value.next) <= x.id && Boot(x.id) == w.value.boot && lo <= x.uptime <= hi;
    }
  }

  lemma WantIsSomeWindow(es: seq<Epoch>, firstUtc: nat, lastUtc: nat, next: nat, x: Entry)
    requires Usable(es) && firstUtc <= lastUtc <= U64_MAX
    ensures UtcWant(es, firstUtc, lastUtc, next)(x) <==>
            exists m :: 0 <= m < |es| && WindowWant(WindowAt(es, m, firstUtc, lastUtc, next))(x)
  {
    forall m | 0 <= m < |es|
      ensures WindowWant(WindowAt(es, m, firstUtc, lastUtc, next))(x) <==>
              Reached(x.id, next) && es[m].anchor.boot == Boot(x.id) && Dated(es[m], x.uptime, firstUtc, lastUtc)
    {
      WindowMatches(es, m, firstUtc, lastUtc, next, x);
    }
    hide WindowWant, WindowAt, Reached, Dated;
    if exists m :: 0 <= m < |es| && WindowWant(WindowAt(es, m, firstUtc, lastUtc, next))(x) {
      var m :| 0 <= m < |es| && WindowWant(WindowAt(es, m, firstUtc, lastUtc, next))(x);
      assert es[m].anchor.boot == Boot(x.id) && Dated(es[m], x.uptime, firstUtc, lastUtc);
    }
  }

  /** What a UTC lookup looks for, said without epochs: the anchor that governs the entry dates it within the range. */
  lemma UtcWantIsGoverned(anchors: set<Anchor>, es: seq<Epoch>, firstUtc: nat, lastUtc: nat, next: nat, x: Entry)
    requires Catalogued(anchors, es) && Bounded(es) && x.uptime <= U64_MAX
    ensures UtcWant(es, firstUtc, lastUtc, next)(x) <==>
            && Reached(x.id, next)
            && exists a :: Governs(anchors, a, Boot(x.id), x.uptime) && firstUtc <= UtcAt(a, x.uptime) <= lastUtc
  {
    var boot := Boot(x.id);
    forall m | 0 <= m < |es| ensures Covers(es[m], boot, x.uptime) <==> Governs(anchors, es[m].anchor, boot, x.uptime) {
      CoversIsGoverns(anchors, es, m, boot, x.uptime);
    }
    hide Governs, Bounded, Ascending;
    if a :| Governs(anchors, a, boot, x.uptime) && firstUtc <= UtcAt(a, x.uptime) <= lastUtc {
      GovernorListed(anchors, es, a, boot, x.uptime);
      var m := AnchorListed(es, a);
      assert Covers(es[m], boot, x.uptime);
      assert Reached(x.id, next) ==> Dated(es[m], x.uptime, firstUtc, lastUtc);
    }
    if UtcWant(es, firstUtc, lastUtc, next)(x) {
      var m :| 0 <= m < |es| && es[m].anchor.boot == boot && Dated(es[m], x.uptime, firstUtc, lastUtc);
      assert Covers(es[m], boot, x.uptime);
    }
  }

  lemma GovernorListed(anchors: set<Anchor>, es: seq<Epoch>, a: Anchor, boot: nat, uptime: nat)
    requires Catalogued(anchors, es) && Governs(anchors, a, boot, uptime)
    ensures a in AnchorsOf(es)
  {
  }

  // ---------- Reading the epochs in order ----------

  /** Of two entries that different epochs date, the one in the earlier epoch has the smaller ID. */
  lemma EarlierEpochFirst(es: seq<Epoch>, j: nat, m: nat, x: Entry, y: Entry)
    requires Usable(es) && j < m < |es|
    requires es[j].anchor.boot == Boot(x.id) && es[j].first <= x.uptime <= es[j].last
    requires es[m].anchor.boot == Boot(y.id) && es[m].first <= y.uptime <= es[m].last
    requires y.id <= x.id && Boot(x.id) == Boot(y.id) ==> y.uptime <= x.uptime
    ensures x.id < y.id
  {
    assert Apart(es[j], es[m]);
    BootOrder(x.id, y.id);
    if es[j].anchor.boot == es[m].anchor.boot {
      assert BoundedAt(es, j) && BoundedAt(es, m);
      assert Apart(es[j], es[j + 1]) && Apart(es[m - 1], es[m]);
      assert j + 1 < m ==> Apart(es[j + 1], es[m]) && Apart(es[j], es[m - 1]);
    }
  }

  /** Of two entries of a boot the one with the smaller ID is not the younger one, and IDs are unique. */
  ghost predicate TimelyList(all: seq<Entry>)
  {
    forall x, y {:trigger x in all, y in all} :: x in all && y in all && x.id <= y.id && Boot(x.id) == Boot(y.id) ==>
      x.uptime <= y.uptime
  }

  /** Epoch m is the first with a match, and the search by uptime skips there. */
  ghost predicate UtcSkipsAt(runs: seq<seq<Entry>>, es: seq<Epoch>, m: nat, firstUtc: nat, lastUtc: nat, next: nat)
    requires m < |es| && Usable(es) && firstUtc <= lastUtc <= U64_MAX
  {
    var w := WindowAt(es, m, firstUtc, lastUtc, next);
    && w.Some? && w.value.next == 0
    && SkipsFirst(runs, w.value.boot, w.value.lo, w.value.hi, FirstWanted(w.value.boot, 0))
    && forall j :: 0 <= j < m ==> NoneIn(Flat(runs), WindowWant(WindowAt(es, j, firstUtc, lastUtc, next)))
  }

  ghost predicate UtcSkips(runs: seq<seq<Entry>>, es: seq<Epoch>, firstUtc: nat, lastUtc: nat, next: nat)
    requires Usable(es) && firstUtc <= lastUtc <= U64_MAX
  {
    exists m :: 0 <= m < |es| && UtcSkipsAt(runs, es, m, firstUtc, lastUtc, next)
  }

  /** Epochs before m have no match. */
  ghost predicate PassedOver(runs: seq<seq<Entry>>, es: seq<Epoch>, m: nat, firstUtc: nat, lastUtc: nat, next: nat)
    requires m <= |es| && Usable(es) && firstUtc <= lastUtc <= U64_MAX
  {
    forall j :: 0 <= j < m ==> NoneIn(Flat(runs), WindowWant(WindowAt(es, j, firstUtc, lastUtc, next)))
  }

  /** What reading through one epoch's window yields (see ReadBootEntryFromSnapshot). */
  ghost predicate WindowRead(runs: seq<seq<Entry>>, w: Window, room: nat, r: Read)
  {
    && (Hit(r).Some? ==> WindowWant(Some(w))(Hit(r).value))
    && Exact(runs, w.boot, w.lo, w.hi, FirstWanted(w.boot, w.next), w.next == 0, room, r)
  }

  /** The result answers the lookup exactly when no search by uptime skipped the first match. */
  ghost predicate UtcExact(runs: seq<seq<Entry>>, es: seq<Epoch>, firstUtc: nat, lastUtc: nat, next: nat, room: nat,
                           r: Read)
    requires Usable(es) && firstUtc <= lastUtc <= U64_MAX
  {
    && !r.Failed? && (Hit(r).Some? ==> Hit(r).value in Flat(runs) && r == Deliver(Hit(r).value, room))
    && (Answers(Flat(runs), UtcWant(es, firstUtc, lastUtc, next), room, r) <==>
        !UtcSkips(runs, es, firstUtc, lastUtc, next))
  }

  lemma WindowAnswer(runs: seq<seq<Entry>>, w: Window, room: nat, r: Read)
    requires WindowRead(runs, w, room, r)
    ensures var skips := w.next == 0 && SkipsFirst(runs, w.boot, w.lo, w.hi, FirstWanted(w.boot, w.next));
      Answers(Flat(runs), WindowWant(Some(w)), room, r) <==> !skips
  {
    var want := InBoot(w.boot, w.lo, w.hi, FirstWanted(w.boot, w.next));
    assert forall x :: WindowWant(Some(w))(x) <==> want(x);
    assert IsFirst(Flat(runs), WindowWant(Some(w)), Hit(r)) <==> IsFirst(Flat(runs), want, Hit(r));
  }

  /** A hit in the first epoch that has a match, found without skipping, is the entry looked for. */
  lemma UtcHit(runs: seq<seq<Entry>>, es: seq<Epoch>, m: nat, firstUtc: nat, lastUtc: nat, next: nat, room: nat,
               r: Read)
    requires Usable(es) && firstUtc <= lastUtc <= U64_MAX && m < |es| && TimelyList(Flat(runs))
    requires PassedOver(runs, es, m, firstUtc, lastUtc, next) && Hit(r).Some?
    requires Answers(Flat(runs), WindowWant(WindowAt(es, m, firstUtc, lastUtc, next)), room, r)
    ensures Answers(Flat(runs), UtcWant(es, firstUtc, lastUtc, next), room, r)
  {
    hide Flat, WindowWant, WindowAt, UtcWant, Reached;
    var e := Hit(r).value;
    WantIsSomeWindow(es, firstUtc, lastUtc, next, e);
    forall x | x in Flat(runs) && UtcWant(es, firstUtc, lastUtc, next)(x) ensures e.id <= x.id {
      WantIsSomeWindow(es, firstUtc, lastUtc, next, x);
      var j :| 0 <= j < |es| && WindowWant(WindowAt(es, j, firstUtc, lastUtc, next))(x);
      assert !NoneIn(Flat(runs), WindowWant(WindowAt(es, j, firstUtc, lastUtc, next)));
      if j > m {
        WindowMatches(es, m, firstUtc, lastUtc, next, e);
        WindowMatches(es, j, firstUtc, lastUtc, next, x);
        EarlierEpochFirst(es, m, j, e, x);
      }
    }
  }

  lemma UtcNone(runs: seq<seq<Entry>>, es: seq<Epoch>, firstUtc: nat, lastUtc: nat, next: nat)
    requires Usable(es) && firstUtc <= lastUtc <= U64_MAX && PassedOver(runs, es, |es|, firstUtc, lastUtc, next)
    ensures IsFirst(Flat(runs), UtcWant(es, firstUtc, lastUtc, next), None)
  {
    hide Flat, WindowWant, WindowAt, UtcWant;
    forall x | x in Flat(runs) ensures !UtcWant(es, firstUtc, lastUtc, next)(x) {
      forall j | 0 <= j < |es| ensures !WindowWant(WindowAt(es, j, firstUtc, lastUtc, next))(x) {
        assert NoneIn(Flat(runs), WindowWant(WindowAt(es, j, firstUtc, lastUtc, next)));
      }
      WantIsSomeWindow(es, firstUtc, lastUtc, next, x);
    }
  }

  /** A match of the skipping epoch that precedes whatever is found there or later. */
  lemma UtcSpoiled(runs: seq<seq<Entry>>, es: seq<Epoch>, s: nat, firstUtc: nat, lastUtc: nat, next: nat,
                   r: Option<Entry>)
    requires Usable(es) && firstUtc <= lastUtc <= U64_MAX && s < |es|
    requires WindowAt(es, s, firstUtc, lastUtc, next).Some?
    requires !IsFirst(Flat(runs), WindowWant(WindowAt(es, s, firstUtc, lastUtc, next)), r)
    requires r.Some? ==> r.value in Flat(runs) && WindowWant(WindowAt(es, s, firstUtc, lastUtc, next))(r.value)
    ensures !IsFirst(Flat(runs), UtcWant(es, firstUtc, lastUtc, next), r)
  {
    hide Flat, WindowWant, WindowAt, UtcWant;
    var want := WindowWant(WindowAt(es, s, firstUtc, lastUtc, next));
    var y :| y in Flat(runs) && want(y) && (r.Some? ==> y.id < r.value.id);
    WantIsSomeWindow(es, firstUtc, lastUtc, next, y);
  }

  // ---------- The loop over the epochs ----------

  /** Before epoch m nothing matched, or the search has already skipped the first match. */
  ghost predicate Going(runs: seq<seq<Entry>>, es: seq<Epoch>, m: nat, firstUtc: nat, lastUtc: nat, next: nat)
    requires m <= |es| && Usable(es) && firstUtc <= lastUtc <= U64_MAX
  {
    || PassedOver(runs, es, m, firstUtc, lastUtc, next)
    || exists s :: 0 <= s < m && UtcSkipsAt(runs, es, s, firstUtc, lastUtc, next)
  }

  lemma SkipHasMatch(runs: seq<seq<Entry>>, es: seq<Epoch>, s: nat, firstUtc: nat, lastUtc: nat, next: nat)
    returns (y: Entry)
    requires s < |es| && Usable(es) && firstUtc <= lastUtc <= U64_MAX &&
             UtcSkipsAt(runs, es, s, firstUtc, lastUtc, next)
    ensures y in Flat(runs) && WindowWant(WindowAt(es, s, firstUtc, lastUtc, next))(y)
  {
    var w := WindowAt(es, s, firstUtc, lastUtc, next).value;
    var k;
    k, y := FirstSkipped(runs, w.boot, w.lo, w.hi, FirstWanted(w.boot, 0));
  }

  lemma GoingStart(runs: seq<seq<Entry>>, es: seq<Epoch>, firstUtc: nat, lastUtc: nat, next: nat)
    requires Usable(es) && firstUtc <= lastUtc <= U64_MAX
    ensures Going(runs, es, 0, firstUtc, lastUtc, next)
  {
  }

  lemma GoingWithoutWindow(runs: seq<seq<Entry>>, es: seq<Epoch>, m: nat, firstUtc: nat, lastUtc: nat, next: nat)
    requires m < |es| && Usable(es) && firstUtc <= lastUtc <= U64_MAX && Going(runs, es, m, firstUtc, lastUtc, next)
    requires WindowAt(es, m, firstUtc, lastUtc, next) == None
    ensures Going(runs, es, m + 1, firstUtc, lastUtc, next)
  {
    assert NoneIn(Flat(runs), WindowWant(WindowAt(es, m, firstUtc, lastUtc, next)));
  }

  lemma GoingMiss(runs: seq<seq<Entry>>, es: seq<Epoch>, m: nat, firstUtc: nat, lastUtc: nat, next: nat, room: nat)
    requires m < |es| && Usable(es) && firstUtc <= lastUtc <= U64_MAX && Going(runs, es, m, firstUtc, lastUtc, next)
    requires WindowAt(es, m, firstUtc, lastUtc, next).Some?
    requires WindowRead(runs, WindowAt(es, m, firstUtc, lastUtc, next).value, room, NotFound)
    ensures Going(runs, es, m + 1, firstUtc, lastUtc, next)
  {
    hide WindowRead, WindowAt, Flat;
    var w := WindowAt(es, m, firstUtc, lastUtc, next).value;
    WindowAnswer(runs, w, room, NotFound);
    if PassedOver(runs, es, m, firstUtc, lastUtc, next) {
      if w.next == 0 && SkipsFirst(runs, w.boot, w.lo, w.hi, FirstWanted(w.boot, 0)) {
        assert UtcSkipsAt(runs, es, m, firstUtc, lastUtc, next);
      } else {
        assert NoneIn(Flat(runs), WindowWant(Some(w)));
      }
    }
  }

  /** No epoch skips the first match when epoch m is the first with one and does not skip. */
  lemma NoUtcSkip(runs: seq<seq<Entry>>, es: seq<Epoch>, m: nat, firstUtc: nat, lastUtc: nat, next: nat, e: Entry)
    requires m < |es| && Usable(es) && firstUtc <= lastUtc <= U64_MAX &&
             PassedOver(runs, es, m, firstUtc, lastUtc, next)
    requires !UtcSkipsAt(runs, es, m, firstUtc, lastUtc, next)
    requires e in Flat(runs) && WindowWant(WindowAt(es, m, firstUtc, lastUtc, next))(e)
    ensures !UtcSkips(runs, es, firstUtc, lastUtc, next)
  {
    NotNone(Flat(runs), WindowWant(WindowAt(es, m, firstUtc, lastUtc, next)), e);
    forall s | 0 <= s < m ensures !UtcSkipsAt(runs, es, s, firstUtc, lastUtc, next) {
      PassedNeverSkips(runs, es, m, s, firstUtc, lastUtc, next);
    }
  }

  lemma PassedNeverSkips(runs: seq<seq<Entry>>, es: seq<Epoch>, m: nat, s: nat, firstUtc: nat, lastUtc: nat, next: nat)
    requires s < m <= |es| && Usable(es) && firstUtc <= lastUtc <= U64_MAX &&
             PassedOver(runs, es, m, firstUtc, lastUtc, next)
    ensures !UtcSkipsAt(runs, es, s, firstUtc, lastUtc, next)
  {
    assert NoneIn(Flat(runs), WindowWant(WindowAt(es, s, firstUtc, lastUtc, next)));
    if UtcSkipsAt(runs, es, s, firstUtc, lastUtc, next) {
      var y := SkipHasMatch(runs, es, s, firstUtc, lastUtc, next);
    }
  }

  lemma GoingHit(runs: seq<seq<Entry>>, es: seq<Epoch>, m: nat, firstUtc: nat, lastUtc: nat, next: nat, room: nat,
                 r: Read)
    requires m < |es| && Usable(es) && firstUtc <= lastUtc <= U64_MAX && Going(runs, es, m, firstUtc, lastUtc, next)
    requires TimelyList(Flat(runs)) && WindowAt(es, m, firstUtc, lastUtc, next).Some? && Hit(r).Some?
    requires WindowRead(runs, WindowAt(es, m, firstUtc, lastUtc, next).value, room, r)
    ensures UtcExact(runs, es, firstUtc, lastUtc, next, room, r)
  {
    var w := WindowAt(es, m, firstUtc, lastUtc, next).value;
    WindowAnswer(runs, w, room, r);
    assert !r.Failed? && WindowWant(Some(w))(Hit(r).value);
    hide WindowRead, WindowAt, Flat, SkipsFirst, UtcWant, WindowWant, Usable;
    if PassedOver(runs, es, m, firstUtc, lastUtc, next) {
      if UtcSkipsAt(runs, es, m, firstUtc, lastUtc, next) {
        HitSpoiled(runs, es, m, firstUtc, lastUtc, next, room, r);
        assert UtcSkips(runs, es, firstUtc, lastUtc, next);
      } else {
        assert Answers(Flat(runs), WindowWant(Some(w)), room, r) by {
          hide Answers;
          FirstWithoutSkip(runs, es, m, firstUtc, lastUtc, next);
        }
        UtcHit(runs, es, m, firstUtc, lastUtc, next, room, r);
        NoUtcSkip(runs, es, m, firstUtc, lastUtc, next, Hit(r).value);
      }
    } else {
      var s :| 0 <= s < m && UtcSkipsAt(runs, es, s, firstUtc, lastUtc, next);
      SkippedBefore(runs, es, s, m, firstUtc, lastUtc, next, Hit(r).value);
      assert UtcSkips(runs, es, firstUtc, lastUtc, next);
    }
  }

  lemma HitSpoiled(runs: seq<seq<Entry>>, es: seq<Epoch>, m: nat, firstUtc: nat, lastUtc: nat, next: nat, room: nat,
                   r: Read)
    requires m < |es| && Usable(es) && firstUtc <= lastUtc <= U64_MAX &&
             UtcSkipsAt(runs, es, m, firstUtc, lastUtc, next)
    requires Hit(r).Some?
    requires WindowRead(runs, WindowAt(es, m, firstUtc, lastUtc, next).value, room, r)
    ensures !IsFirst(Flat(runs), UtcWant(es, firstUtc, lastUtc, next), Hit(r))
  {
    WindowAnswer(runs, WindowAt(es, m, firstUtc, lastUtc, next).value, room, r);
    hide Flat, SkipsFirst, UtcWant, WindowWant, Usable, WindowAt, IsFirst;
    UtcSpoiled(runs, es, m, firstUtc, lastUtc, next, Hit(r));
  }

  lemma FirstWithoutSkip(runs: seq<seq<Entry>>, es: seq<Epoch>, m: nat, firstUtc: nat, lastUtc: nat, next: nat)
    requires m < |es| && Usable(es) && firstUtc <= lastUtc <= U64_MAX &&
             PassedOver(runs, es, m, firstUtc, lastUtc, next)
    requires WindowAt(es, m, firstUtc, lastUtc, next).Some? && !UtcSkipsAt(runs, es, m, firstUtc, lastUtc, next)
    ensures var w := WindowAt(es, m, firstUtc, lastUtc, next).value;
      !(w.next == 0 && SkipsFirst(runs, w.boot, w.lo, w.hi, FirstWanted(w.boot, w.next)))
  {
  }

  lemma SkippedBefore(runs: seq<seq<Entry>>, es: seq<Epoch>, s: nat, m: nat, firstUtc: nat, lastUtc: nat, next: nat,
                      e: Entry)
    requires s < m < |es| && Usable(es) && firstUtc <= lastUtc <= U64_MAX && TimelyList(Flat(runs))
    requires UtcSkipsAt(runs, es, s, firstUtc, lastUtc, next)
    requires e in Flat(runs) && WindowWant(WindowAt(es, m, firstUtc, lastUtc, next))(e)
    ensures !IsFirst(Flat(runs), UtcWant(es, firstUtc, lastUtc, next), Some(e))
  {
    var y := SkipHasMatch(runs, es, s, firstUtc, lastUtc, next);
    hide Flat, WindowWant, WindowAt, UtcWant, UtcSkipsAt;
    WindowMatches(es, s, firstUtc, lastUtc, next, y);
    WindowMatches(es, m, firstUtc, lastUtc, next, e);
    EarlierEpochFirst(es, s, m, y, e);
    WantIsSomeWindow(es, firstUtc, lastUtc, next, y);
  }

  lemma GoingOver(runs: seq<seq<Entry>>, es: seq<Epoch>, firstUtc: nat, lastUtc: nat, next: nat, room: nat)
    requires Usable(es) && firstUtc <= lastUtc <= U64_MAX && Going(runs, es, |es|, firstUtc, lastUtc, next)
    ensures UtcExact(runs, es, firstUtc, lastUtc, next, room, NotFound)
  {
    hide WindowAt, Flat, SkipsFirst, UtcWant, WindowWant, Usable;
    if PassedOver(runs, es, |es|, firstUtc, lastUtc, next) {
      UtcNone(runs, es, firstUtc, lastUtc, next);
      forall s | 0 <= s < |es| ensures !UtcSkipsAt(runs, es, s, firstUtc, lastUtc, next) {
        PassedNeverSkips(runs, es, |es|, s, firstUtc, lastUtc, next);
      }
    } else {
      var s :| 0 <= s < |es| && UtcSkipsAt(runs, es, s, firstUtc, lastUtc, next);
      var y := SkipHasMatch(runs, es, s, firstUtc, lastUtc, next);
      WantIsSomeWindow(es, firstUtc, lastUtc, next, y);
      assert UtcSkips(runs, es, firstUtc, lastUtc, next);
    }
  }

  // ---------- Reading a whole range ----------

  /** The boot of epoch m is entered at its start, m is its first epoch with a match, and the search
      by uptime skips there. (Where the boot before it has delivered its very last ID, reading goes
      on by ID and no search by uptime is made.) */
  ghost predicate BootSkipsAt(runs: seq<seq<Entry>>, es: seq<Epoch>, m: nat, firstUtc: nat, lastUtc: nat, next: nat)
    requires m < |es| && Usable(es) && firstUtc <= lastUtc <= U64_MAX
  {
    var w := WindowAt(es, m, firstUtc, lastUtc, next);
    && w.Some? && w.value.next == 0
    && SkipsFirst(runs, w.value.boot, w.value.lo, w.value.hi, FirstWanted(w.value.boot, 0))
    && FirstOfBoot(runs, es, m, firstUtc, lastUtc, next)
    && EnteredAtStart(runs, es, w.value.boot, firstUtc, lastUtc, next)
  }

  ghost predicate FirstOfBoot(runs: seq<seq<Entry>>, es: seq<Epoch>, m: nat, firstUtc: nat, lastUtc: nat, next: nat)
    requires m < |es| && Usable(es) && firstUtc <= lastUtc <= U64_MAX
  {
    forall j :: 0 <= j < m && es[j].anchor.boot == es[m].anchor.boot ==>
      NoneIn(Flat(runs), WindowWant(WindowAt(es, j, firstUtc, lastUtc, next)))
  }

  ghost predicate EnteredAtStart(runs: seq<seq<Entry>>, es: seq<Epoch>, boot: nat, firstUtc: nat, lastUtc: nat,
                                 next: nat)
  {
    forall x :: x in Flat(runs) && UtcWant(es, firstUtc, lastUtc, next)(x) ==> x.id + 1 != MakeId(boot, 0)
  }

  /** Some boot's first match is skipped. */
  ghost predicate EverSkips(runs: seq<seq<Entry>>, es: seq<Epoch>, firstUtc: nat, lastUtc: nat, next: nat)
    requires Usable(es) && firstUtc <= lastUtc <= U64_MAX
  {
    exists m :: 0 <= m < |es| && BootSkipsAt(runs, es, m, firstUtc, lastUtc, next)
  }

  lemma BootHasMatch(runs: seq<seq<Entry>>, es: seq<Epoch>, m: nat, firstUtc: nat, lastUtc: nat, next: nat)
    returns (y: Entry)
    requires m < |es| && Usable(es) && firstUtc <= lastUtc <= U64_MAX
    requires BootSkipsAt(runs, es, m, firstUtc, lastUtc, next)
    ensures y in Flat(runs) && WindowWant(WindowAt(es, m, firstUtc, lastUtc, next))(y)
    ensures UtcWant(es, firstUtc, lastUtc, next)(y) && Boot(y.id) == es[m].anchor.boot
    ensures next == 0 || Boot(next) < Boot(y.id)
  {
    var w := WindowAt(es, m, firstUtc, lastUtc, next).value;
    var k;
    k, y := FirstSkipped(runs, w.boot, w.lo, w.hi, FirstWanted(w.boot, 0));
    hide SkipsFirst, Flat, FirstOfBoot, EnteredAtStart, UtcWant;
    WantIsSomeWindow(es, firstUtc, lastUtc, next, y);
  }

  lemma NotJustBefore(id: nat, boot: nat)
    ensures boot <= Boot(id) ==> MakeId(boot, 0) <= id
    ensures Boot(id) < boot && id + 1 != MakeId(boot, 0) ==> Boot(id + 1) < boot
    ensures Boot(id + 1) < boot ==> Boot(id) < boot && id + 1 != MakeId(boot, 0)
  {
  }

  lemma WantedInEpoch(es: seq<Epoch>, firstUtc: nat, lastUtc: nat, next: nat, x: Entry) returns (j: nat)
    requires Usable(es) && firstUtc <= lastUtc <= U64_MAX && UtcWant(es, firstUtc, lastUtc, next)(x)
    ensures j < |es| && WindowWant(WindowAt(es, j, firstUtc, lastUtc, next))(x)
    ensures next <= x.id && es[j].anchor.boot == Boot(x.id) && Dated(es[j], x.uptime, firstUtc, lastUtc)
  {
    assert next <= x.id;
    hide Dated, WindowWant, UtcWant;
    WantIsSomeWindow(es, firstUtc, lastUtc, next, x);
    j :| j < |es| && WindowWant(WindowAt(es, j, firstUtc, lastUtc, next))(x);
    WindowMatches(es, j, firstUtc, lastUtc, next, x);
  }

  lemma PassedEntersAtStart(runs: seq<seq<Entry>>, es: seq<Epoch>, m: nat, firstUtc: nat, lastUtc: nat, next: nat)
    requires Usable(es) && firstUtc <= lastUtc <= U64_MAX && m < |es|
    requires PassedOver(runs, es, m, firstUtc, lastUtc, next)
    ensures EnteredAtStart(runs, es, es[m].anchor.boot, firstUtc, lastUtc, next)
  {
    hide Flat, UtcWant, PassedOver, Usable, WindowWant, WindowAt;
    forall x | x in Flat(runs) && UtcWant(es, firstUtc, lastUtc, next)(x)
      ensures x.id + 1 != MakeId(es[m].anchor.boot, 0)
    {
      var j := WantedInEpoch(es, firstUtc, lastUtc, next, x);
      EpochNotBefore(runs, es, m, j, firstUtc, lastUtc, next, x);
      NotJustBefore(x.id, es[m].anchor.boot);
    }
  }

  /** A read that skips is such a case. */
  lemma SkipIsEver(runs: seq<seq<Entry>>, es: seq<Epoch>, firstUtc: nat, lastUtc: nat, next: nat)
    requires Usable(es) && firstUtc <= lastUtc <= U64_MAX && UtcSkips(runs, es, firstUtc, lastUtc, next)
    ensures EverSkips(runs, es, firstUtc, lastUtc, next)
  {
    var m: nat :| m < |es| && UtcSkipsAt(runs, es, m, firstUtc, lastUtc, next);
    hide Flat, SkipsFirst, UtcWant, WindowWant, EnteredAtStart;
    PassedEntersAtStart(runs, es, m, firstUtc, lastUtc, next);
    assert BootSkipsAt(runs, es, m, firstUtc, lastUtc, next);
  }

  lemma EpochNotBefore(runs: seq<seq<Entry>>, es: seq<Epoch>, m: nat, j: nat, firstUtc: nat, lastUtc: nat, next: nat,
                       x: Entry)
    requires Usable(es) && firstUtc <= lastUtc <= U64_MAX && m < |es| && j < |es| && x in Flat(runs)
    requires PassedOver(runs, es, m, firstUtc, lastUtc, next)
    requires WindowWant(WindowAt(es, j, firstUtc, lastUtc, next))(x)
    ensures m <= j && es[m].anchor.boot <= es[j].anchor.boot
  {
    hide Flat, WindowWant, WindowAt;
    NotNone(Flat(runs), WindowWant(WindowAt(es, j, firstUtc, lastUtc, next)), x);
    if m < j {
      assert Apart(es[m], es[j]);
    }
  }

  lemma SameWindow(e: Epoch, firstUtc: nat, lastUtc: nat, a: nat, b: nat)
    requires EpochOk(e) && firstUtc <= lastUtc <= U64_MAX
    requires (a == 0 || Boot(a) < e.anchor.boot) && (b == 0 || Boot(b) < e.anchor.boot)
    ensures MakeUtcBootCursor(e, firstUtc, lastUtc, a) == MakeUtcBootCursor(e, firstUtc, lastUtc, b)
  {
  }

  /** A boot behind the delivered entry is as much skipped in as before. */
  lemma LaterBootSame(runs: seq<seq<Entry>>, es: seq<Epoch>, m: nat, firstUtc: nat, lastUtc: nat, next: nat, e: Entry)
    requires m < |es| && Usable(es) && firstUtc <= lastUtc <= U64_MAX && next <= e.id
    requires Boot(e.id + 1) < es[m].anchor.boot
    requires e in Flat(runs) && UtcWant(es, firstUtc, lastUtc, next)(e)
    requires forall x :: x in Flat(runs) && UtcWant(es, firstUtc, lastUtc, next)(x) ==> e.id <= x.id
    ensures BootSkipsAt(runs, es, m, firstUtc, lastUtc, next) <==>
            BootSkipsAt(runs, es, m, firstUtc, lastUtc, e.id + 1)
  {
    var boot := es[m].anchor.boot;
    BootBelow(next, e.id, boot);
    forall j | 0 <= j <= m && es[j].anchor.boot == boot
      ensures WindowAt(es, j, firstUtc, lastUtc, next) == WindowAt(es, j, firstUtc, lastUtc, e.id + 1)
    {
      SameWindow(es[j], firstUtc, lastUtc, next, e.id + 1);
    }
    hide Flat, SkipsFirst, WindowAt, WindowWant, Usable;
    StartSame(runs, es, boot, firstUtc, lastUtc, next, e);
  }

  lemma BootBelow(next: nat, id: nat, boot: nat)
    requires next <= id && Boot(id + 1) < boot
    ensures Boot(next) < boot && Boot(id) < boot
  {
  }

  lemma StartSame(runs: seq<seq<Entry>>, es: seq<Epoch>, boot: nat, firstUtc: nat, lastUtc: nat, next: nat, e: Entry)
    requires next <= e.id && Boot(e.id + 1) < boot
    requires forall x :: x in Flat(runs) && UtcWant(es, firstUtc, lastUtc, next)(x) ==> e.id <= x.id
    ensures EnteredAtStart(runs, es, boot, firstUtc, lastUtc, next) <==>
            EnteredAtStart(runs, es, boot, firstUtc, lastUtc, e.id + 1)
  {
    forall x: Entry | x in Flat(runs) && x.id + 1 == MakeId(boot, 0)
      ensures UtcWant(es, firstUtc, lastUtc, next)(x) <==> UtcWant(es, firstUtc, lastUtc, e.id + 1)(x)
    {
      LastIdReached(x.id, e.id + 1, boot);
      LastIdReached(x.id, next, boot);
    }
  }

  lemma LastIdReached(id: nat, next: nat, boot: nat)
    requires id + 1 == MakeId(boot, 0) && (Boot(next) < boot || next <= id)
    ensures Reached(id, next)
  {
    assert id == (boot - 1) * BOOT_UNIT + (BOOT_UNIT - 1);
    assert Boot(id) == boot - 1;
    assert next == Boot(next) * BOOT_UNIT + next % BOOT_UNIT;
  }

  lemma SkipsNowInBoot(runs: seq<seq<Entry>>, es: seq<Epoch>, m: nat, firstUtc: nat, lastUtc: nat, next: nat, e: Entry)
    requires m < |es| && Usable(es) && firstUtc <= lastUtc <= U64_MAX
    requires BootSkipsAt(runs, es, m, firstUtc, lastUtc, next) && Boot(e.id) == es[m].anchor.boot
    requires forall x :: x in Flat(runs) && UtcWant(es, firstUtc, lastUtc, next)(x) ==> e.id <= x.id
    ensures UtcSkipsAt(runs, es, m, firstUtc, lastUtc, next)
  {
    hide Flat, SkipsFirst, UtcWant, WindowWant, WindowAt, EnteredAtStart;
    forall j, x | 0 <= j < m && x in Flat(runs) && WindowWant(WindowAt(es, j, firstUtc, lastUtc, next))(x)
      ensures false
    {
      NotNone(Flat(runs), WindowWant(WindowAt(es, j, firstUtc, lastUtc, next)), x);
      assert es[j].anchor.boot != es[m].anchor.boot && Apart(es[j], es[m]);
      WindowMatches(es, j, firstUtc, lastUtc, next, x);
      WantIsSomeWindow(es, firstUtc, lastUtc, next, x);
      BootOrder(x.id, e.id);
    }
  }

  /** Once the first match has been delivered without a skip, the boots still to be skipped
      in are the same as before. */
  lemma EverMovesOn(runs: seq<seq<Entry>>, es: seq<Epoch>, firstUtc: nat, lastUtc: nat, next: nat, e: Entry)
    requires Usable(es) && firstUtc <= lastUtc <= U64_MAX && next <= e.id
    requires IsFirst(Flat(runs), UtcWant(es, firstUtc, lastUtc, next), Some(e))
    requires !UtcSkips(runs, es, firstUtc, lastUtc, next)
    ensures EverSkips(runs, es, firstUtc, lastUtc, next) <==> EverSkips(runs, es, firstUtc, lastUtc, e.id + 1)
  {
    hide Flat, UtcWant, UtcSkipsAt, BootSkipsAt;
    if EverSkips(runs, es, firstUtc, lastUtc, next) {
      var m: nat :| m < |es| && BootSkipsAt(runs, es, m, firstUtc, lastUtc, next);
      SkippedBootIsLater(runs, es, m, firstUtc, lastUtc, next, e);
      LaterBootSame(runs, es, m, firstUtc, lastUtc, next, e);
    }
    if EverSkips(runs, es, firstUtc, lastUtc, e.id + 1) {
      var m: nat :| m < |es| && BootSkipsAt(runs, es, m, firstUtc, lastUtc, e.id + 1);
      var y := BootHasMatch(runs, es, m, firstUtc, lastUtc, e.id + 1);
      LaterBootSame(runs, es, m, firstUtc, lastUtc, next, e);
    }
  }

  lemma SkippedBootIsLater(runs: seq<seq<Entry>>, es: seq<Epoch>, m: nat, firstUtc: nat, lastUtc: nat, next: nat,
                           e: Entry)
    requires m < |es| && Usable(es) && firstUtc <= lastUtc <= U64_MAX
    requires BootSkipsAt(runs, es, m, firstUtc, lastUtc, next) && !UtcSkips(runs, es, firstUtc, lastUtc, next)
    requires IsFirst(Flat(runs), UtcWant(es, firstUtc, lastUtc, next), Some(e))
    ensures Boot(e.id + 1) < es[m].anchor.boot
  {
    var boot := es[m].anchor.boot;
    var y := BootHasMatch(runs, es, m, firstUtc, lastUtc, next);
    assert e.id + 1 != MakeId(boot, 0);
    hide Flat, UtcWant, UtcSkipsAt, BootSkipsAt;
    BootOrder(y.id, e.id);
    if Boot(e.id) == boot {
      SkipsNowInBoot(runs, es, m, firstUtc, lastUtc, next, e);
    }
    NotJustBefore(e.id, boot);
  }

  /** Where nothing is left, nothing is skipped. */
  lemma NothingToSkip(runs: seq<seq<Entry>>, es: seq<Epoch>, firstUtc: nat, lastUtc: nat, next: nat)
    requires Usable(es) && firstUtc <= lastUtc <= U64_MAX
    requires forall x :: x in Flat(runs) ==> !UtcWant(es, firstUtc, lastUtc, next)(x)
    ensures !EverSkips(runs, es, firstUtc, lastUtc, next)
  {
    hide Flat, UtcWant, BootSkipsAt;
    forall m | 0 <= m < |es| ensures !BootSkipsAt(runs, es, m, firstUtc, lastUtc, next) {
      if BootSkipsAt(runs, es, m, firstUtc, lastUtc, next) {
        var y := BootHasMatch(runs, es, m, firstUtc, lastUtc, next);
      }
    }
  }
}
