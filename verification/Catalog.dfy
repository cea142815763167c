/** The catalog pipeline as the store runs it, in place on its epoch table. */
module Catalog {
  import opened Layout
  import opened TimeModel

  function NewEpoch(a: Anchor, slot: nat): Epoch { Epoch(a, 0, 0, 0, U64_MAX, slot, false) }

  // ---------- What the loops do, as functions on the table ----------

  function InsertAt(es: seq<Epoch>, p: nat, e: Epoch): seq<Epoch>
    requires p <= |es|
  {
    es[..p] + [e] + es[p..]
  }

  lemma InsertedInOrder(es: seq<Epoch>, p: nat, e: Epoch)
    requires BySequence(es) && p <= |es| && forall o :: o in es ==> o.anchor.sequence != e.anchor.sequence
    requires p > 0 ==> es[p - 1].anchor.sequence <= e.anchor.sequence
    requires forall j :: p <= j < |es| ==> e.anchor.sequence < es[j].anchor.sequence
    ensures BySequence(InsertAt(es, p, e))
  {
    var r := InsertAt(es, p, e);
    assert forall j :: 0 <= j < |r| ==> r[j] == if j < p then es[j] else if j == p then e else es[j - 1];
    if p > 0 {
      assert es[p - 1] in es;
      assert forall j :: 0 <= j < p ==> es[j].anchor.sequence < e.anchor.sequence;
    }
    hide InsertAt;
  }

  lemma InsertAtIs(r: seq<Epoch>, es: seq<Epoch>, p: nat, e: Epoch)
    requires p <= |es| && |r| == |es| + 1 && r[p] == e
    requires forall j :: 0 <= j < p ==> r[j] == es[j]
    requires forall j :: p < j <= |es| ==> r[j] == es[j - 1]
    ensures r == InsertAt(es, p, e)
  {
  }

  lemma InsertedAnchors(es: seq<Epoch>, p: nat, e: Epoch)
    requires p <= |es|
    ensures AnchorsOf(InsertAt(es, p, e)) == AnchorsOf(es) + {e.anchor}
  {
    var r := InsertAt(es, p, e);
    assert r[p] in r;
    assert forall o :: o in r <==> o in es || o == e by {
      assert es == es[..p] + es[p..];
    }
  }

  /** The epochs still effective, in order. */
  function Kept(es: seq<Epoch>): seq<Epoch>
  {
    if es == [] then [] else Kept(es[..|es| - 1]) + if es[|es| - 1].effective then [es[|es| - 1]] else []
  }

  lemma {:induction false} KeptMembers(es: seq<Epoch>)
    ensures forall e :: e in Kept(es) <==> e in es && e.effective
    ensures |Kept(es)| <= |es|
  {
    if es != [] {
      var k := |es| - 1;
      KeptMembers(es[..k]);
      assert es == es[..k] + [es[k]];
    }
  }

  lemma {:induction false} KeptOrder(es: seq<Epoch>)
    requires BySequence(es)
    ensures BySequence(Kept(es)) && Distinct(Kept(es))
  {
    if es != [] {
      var k := |es| - 1;
      KeptOrder(es[..k]);
      var before := Kept(es[..k]);
      KeptMembers(es[..k]);
      forall j | 0 <= j < |before| ensures before[j].anchor.sequence < es[k].anchor.sequence {
        assert before[j] in before;
        var i :| 0 <= i < k && es[i] == before[j];
      }
      hide Kept;
      SequenceEnds(before, es[k]);
    }
  }

  lemma SequenceEnds(es: seq<Epoch>, e: Epoch)
    requires BySequence(es) && Distinct(es) && forall j :: 0 <= j < |es| ==> es[j].anchor.sequence < e.anchor.sequence
    ensures BySequence(es + [e]) && Distinct(es + [e])
  {
  }

  /** No two epochs share a sequence number. */
  ghost predicate Distinct(es: seq<Epoch>)
  {
    forall i, j :: 0 <= i < j < |es| ==> es[i].anchor.sequence != es[j].anchor.sequence
  }

  /** The element at `index` moved down to p, those from p on moved up by one. */
  function MovedDown(es: seq<Epoch>, p: nat, index: nat): seq<Epoch>
    requires p <= index < |es|
  {
    es[..p] + [es[index]] + es[p..index] + es[index + 1..]
  }

  lemma MovedDownAt(es: seq<Epoch>, p: nat, index: nat, j: nat)
    requires p <= index < |es| && j < |es|
    ensures |MovedDown(es, p, index)| == |es|
    ensures MovedDown(es, p, index)[j] == if j < p || index < j then es[j] else if j == p then es[index] else es[j - 1]
  {
  }

  lemma MovedDownIs(r: seq<Epoch>, es: seq<Epoch>, p: nat, index: nat)
    requires p <= index < |es| == |r| && r[p] == es[index]
    requires forall j :: 0 <= j < |es| && (j < p || index < j) ==> r[j] == es[j]
    requires forall j :: p < j <= index ==> r[j] == es[j - 1]
    ensures r == MovedDown(es, p, index)
  {
  }

  lemma MovedDownKeeps(es: seq<Epoch>, p: nat, index: nat)
    requires p <= index < |es|
    ensures forall e :: e in MovedDown(es, p, index) <==> e in es
  {
    var r := MovedDown(es, p, index);
    forall e | e in es ensures e in r {
      var i :| 0 <= i < |es| && es[i] == e;
      assert r[if i == index then p else if p <= i < index then i + 1 else i] == e;
    }
    forall e | e in r ensures e in es {
      var j :| 0 <= j < |r| && r[j] == e;
      MovedDownAt(es, p, index, j);
    }
  }

  lemma MovedDownDistinct(es: seq<Epoch>, p: nat, index: nat)
    requires p <= index < |es| && Distinct(es)
    ensures Distinct(MovedDown(es, p, index))
  {
    var r := MovedDown(es, p, index);
    forall i, j | 0 <= i < j < |r| ensures r[i].anchor.sequence != r[j].anchor.sequence {
      MovedDownAt(es, p, index, i);
      MovedDownAt(es, p, index, j);
    }
  }

  lemma MovedDownInOrder(es: seq<Epoch>, p: nat, index: nat)
    requires p <= index < |es| && Distinct(es) && InOrder(es[..index])
    requires p > 0 ==> !Before(es[index], es[p - 1])
    requires forall j :: p <= j < index ==> Before(es[index], es[j])
    ensures InOrder(MovedDown(es, p, index)[..index + 1])
  {
    var r := MovedDown(es, p, index);
    forall i, j | 0 <= i < j <= index ensures Before(r[i], r[j]) {
      MovedDownAt(es, p, index, i);
      MovedDownAt(es, p, index, j);
      assert forall a, b :: 0 <= a < b < index ==> Before(es[..index][a], es[..index][b]);
      if j == p {
        assert Before(es[p - 1], es[index]);
        assert i < p - 1 ==> Before(es[i], es[p - 1]);
      }
    }
  }

  predicate SameStart(a: Epoch, b: Epoch) { a.anchor.boot == b.anchor.boot && a.eff == b.eff }

  /** Of neighbours with the same boot and start, the last one. */
  function LastOfEach(es: seq<Epoch>): seq<Epoch>
  {
    if es == [] then []
    else
      var before, e := LastOfEach(es[..|es| - 1]), es[|es| - 1];
      if before != [] && SameStart(before[|before| - 1], e) then before[|before| - 1 := e] else before + [e]
  }

  lemma LastOfNone(es: seq<Epoch>)
    ensures LastOfEach(es[..0]) == []
  {
  }

  lemma LastOfEachNext(es: seq<Epoch>, k: nat)
    requires k < |es|
    ensures var before := LastOfEach(es[..k]);
      LastOfEach(es[..k + 1]) ==
      if before != [] && SameStart(before[|before| - 1], es[k]) then before[|before| - 1 := es[k]] else before + [es[k]]
  {
    assert es[..k + 1][..k] == es[..k];
  }

  lemma {:induction false} LastOfEachAscends(es: seq<Epoch>)
    requires InOrder(es)
    ensures Ascending(LastOfEach(es)) && |LastOfEach(es)| <= |es|
    ensures es != [] ==> LastOfEach(es) != [] && LastOfEach(es)[|LastOfEach(es)| - 1] == es[|es| - 1]
  {
    if es != [] {
      var k := |es| - 1;
      LastOfEachAscends(es[..k]);
      var before, r := LastOfEach(es[..k]), LastOfEach(es);
      if k > 0 {
        assert Before(es[k - 1], es[k]);
        forall i | 0 <= i < |r| - 1 ensures Apart(r[i], es[k]) {
          assert r[i] == before[i];
          if i < |before| - 1 {
            assert Apart(before[i], before[|before| - 1]);
          }
        }
      }
    }
  }

  ghost predicate Newest(es: seq<Epoch>, e: Epoch)
  {
    e in es && forall o :: o in es && SameStart(o, e) ==> o.anchor.sequence <= e.anchor.sequence
  }

  lemma NewestStep(es: seq<Epoch>, e: Epoch)
    requires InOrder(es) && es != []
    ensures var b, last := es[..|es| - 1], es[|es| - 1];
      Newest(es, e) <==> e == last || (Newest(b, e) && !SameStart(e, last))
  {
    var b, last := es[..|es| - 1], es[|es| - 1];
    assert es == b + [last];
    assert forall o :: o in b ==> Before(o, last);
  }

  lemma LastOfEachShape(es: seq<Epoch>, j: nat)
    requires es != [] && j < |LastOfEach(es)|
    ensures LastOfEach(es)[j] == if j + 1 == |LastOfEach(es)| then es[|es| - 1] else LastOfEach(es[..|es| - 1])[j]
  {
  }

  lemma LastOfEachPasses(es: seq<Epoch>, e: Epoch)
    requires es != [] && e in LastOfEach(es[..|es| - 1]) && !SameStart(e, es[|es| - 1])
    ensures e in LastOfEach(es)
  {
    var before := LastOfEach(es[..|es| - 1]);
    var i :| 0 <= i < |before| && before[i] == e;
    assert LastOfEach(es)[i] == e;
  }

  lemma LastOfEachDrops(es: seq<Epoch>, e: Epoch)
    requires InOrder(es) && es != [] && e in LastOfEach(es[..|es| - 1]) && SameStart(e, es[|es| - 1]) &&
             e != es[|es| - 1]
    ensures e !in LastOfEach(es)
  {
    var k := |es| - 1;
    var before, r := LastOfEach(es[..k]), LastOfEach(es);
    LastOfEachAscends(es[..k]);
    LastOfEachAscends(es);
    assert Before(es[k - 1], es[k]);
    var i :| 0 <= i < |before| && before[i] == e;
    forall j | 0 <= j < |before| - 1 ensures !SameStart(before[j], es[k]) {
      assert Apart(before[j], before[|before| - 1]);
    }
    forall j | 0 <= j < |r| ensures r[j] != e {
      assert j < |r| - 1 ==> Apart(r[j], r[|r| - 1]);
    }
  }

  lemma {:induction false} LastOfEachMembers(es: seq<Epoch>, e: Epoch)
    requires InOrder(es)
    ensures e in LastOfEach(es) <==> Newest(es, e)
  {
    if es != [] {
      var k := |es| - 1;
      LastOfEachMembers(es[..k], e);
      LastOfEachAscends(es);
      NewestStep(es, e);
      hide Newest, InOrder, Ascending, SameStart;
      if e != es[k] {
        if e in LastOfEach(es[..k]) {
          if SameStart(e, es[k]) {
            LastOfEachDrops(es, e);
          } else {
            LastOfEachPasses(es, e);
          }
        } else if e in LastOfEach(es) {
          var j :| 0 <= j < |LastOfEach(es)| && LastOfEach(es)[j] == e;
          LastOfEachShape(es, j);
        }
      }
    }
  }

  // ---------- Resolving replacements ----------

  /** Entry i once everything up to `done` has been processed: resolved, and effective
      unless a later one replaced it. */
  ghost predicate ResolvedUpTo(anchors: set<Anchor>, es: seq<Epoch>, i: nat, done: nat)
    requires i < done <= |es|
  {
    && ResolvedTo(anchors, es[i])
    && (es[i].effective <==>
          && Root(anchors, es[i].anchor).Some?
          && forall k :: i < k < done ==> Root(anchors, es[k].anchor) != Root(anchors, es[i].anchor))
  }

  /** The first `done` entries have been processed. */
  ghost predicate Processed(anchors: set<Anchor>, es: seq<Epoch>, done: nat)
    requires done <= |es|
  {
    forall i :: 0 <= i < done ==> ResolvedUpTo(anchors, es, i, done)
  }

  ghost predicate SameAnchors(es: seq<Epoch>, was: seq<Epoch>)
  {
    |es| == |was| && forall i :: 0 <= i < |es| ==> es[i].anchor == was[i].anchor
  }

  lemma SameAnchorSet(es: seq<Epoch>, was: seq<Epoch>)
    requires SameAnchors(es, was)
    ensures AnchorsOf(es) == AnchorsOf(was)
  {
    forall a ensures a in AnchorsOf(es) <==> a in AnchorsOf(was) {
      if a in AnchorsOf(es) {
        var i := AnchorListed(es, a);
        assert was[i] in was;
      }
      if a in AnchorsOf(was) {
        var i := AnchorListed(was, a);
        assert es[i] in es;
      }
    }
  }

  lemma AllResolved(anchors: set<Anchor>, es: seq<Epoch>)
    requires BySequence(es) && AnchorsOf(es) == anchors
    requires Processed(anchors, es, |es|)
    ensures Resolved(anchors, es)
  {
    hide Root, Start;
    forall e | e in es ensures ResolvedTo(anchors, e) && (e.effective <==> Effective(anchors, e.anchor)) {
      var i :| 0 <= i < |es| && es[i] == e;
      assert ResolvedUpTo(anchors, es, i, |es|);
      if e.effective {
        forall b | b in anchors && Root(anchors, b) == Root(anchors, e.anchor) ensures b.sequence <= e.anchor.sequence {
          var k := AnchorListed(es, b);
        }
      }
      if Effective(anchors, e.anchor) {
        forall k | i < k < |es| ensures Root(anchors, es[k].anchor) != Root(anchors, es[i].anchor) {
          assert es[k] in es;
        }
      }
    }
  }

  /** Only an older anchor can be the target, so looking among the epochs before this one is enough. */
  lemma TargetIsEarlier(es: seq<Epoch>, i: nat, sequence: nat, found: Option<nat>)
    requires BySequence(es) && i < |es| && sequence < es[i].anchor.sequence
    requires match found
      case Some(t) => t < i && es[t].anchor.sequence == sequence
      case None => forall k :: 0 <= k < i ==> es[k].anchor.sequence != sequence
    ensures Target(AnchorsOf(es), sequence) == match found case Some(t) => Some(es[t].anchor) case None => None
  {
    var r := Target(AnchorsOf(es), sequence);
    if r.Some? {
      var k := AnchorListed(es, r.value);
    }
    if found.Some? {
      assert es[found.value] in es;
    }
  }

  lemma RootStep(anchors: set<Anchor>, a: Anchor, t: Option<Anchor>)
    requires AnchorOk(a) && a.replace != 0 && Target(anchors, a.replace) == t
    ensures Root(anchors, a) == if t.Some? && t.value.boot == a.boot then Root(anchors, t.value) else None
  {
  }

  lemma SameRootIff(anchors: set<Anchor>, a: Epoch, b: Epoch)
    requires Sound(anchors) && a.anchor in anchors && b.anchor in anchors && ResolvedTo(anchors, a) &&
             ResolvedTo(anchors, b)
    requires b.root != 0
    ensures a.anchor.boot == b.anchor.boot && a.root == b.root <==> Root(anchors, a.anchor) == Root(anchors, b.anchor)
    ensures a.root == 0 <==> Root(anchors, a.anchor) == None
  {
    RootOk(anchors, a.anchor);
    RootOk(anchors, b.anchor);
  }

  lemma {:induction false} RootOk(anchors: set<Anchor>, a: Anchor)
    requires Sound(anchors) && a in anchors
    ensures Root(anchors, a).Some? ==> Root(anchors, a).value in anchors && Root(anchors, a).value.sequence != 0
  {
  }

  // ---------- Compaction, order and bounds ----------

  lemma AnchorsDecideEpochs(anchors: set<Anchor>, es: seq<Epoch>)
    requires Sound(anchors) && Resolved(anchors, es) && AnchorsOf(es) == anchors && BySequence(es)
    ensures Collected(anchors, Kept(es)) && Distinct(Kept(es)) && |Kept(es)| <= |es|
  {
    hide Root, Start, Kept;
    KeptMembers(es);
    KeptOrder(es);
    hide BySequence;
    forall e | e in Kept(es) ensures Effective(anchors, e.anchor) && e.eff == Start(anchors, e.anchor) {
      assert ResolvedTo(anchors, e);
      assert e in es && e.anchor in AnchorsOf(es);
      RootOk(anchors, e.anchor);
    }
    forall a | Effective(anchors, a) ensures a in AnchorsOf(Kept(es)) {
      var i := AnchorListed(es, a);
      assert es[i] in es;
    }
  }

  /** The table before neighbours with equal starts are merged. */
  ghost predicate Collected(anchors: set<Anchor>, es: seq<Epoch>)
  {
    && (forall e :: e in es ==> Effective(anchors, e.anchor) && e.eff == Start(anchors, e.anchor))
    && forall a :: Effective(anchors, a) ==> a in AnchorsOf(es)
  }

  lemma CollectedSame(anchors: set<Anchor>, es: seq<Epoch>, was: seq<Epoch>)
    requires Collected(anchors, was) && forall e :: e in es <==> e in was
    ensures Collected(anchors, es)
  {
    forall a | Effective(anchors, a) ensures a in AnchorsOf(es) {
      var e :| e in was && e.anchor == a;
      assert e in es;
    }
  }

  lemma MergedIsCatalogued(anchors: set<Anchor>, es: seq<Epoch>)
    requires Collected(anchors, es) && InOrder(es)
    ensures Catalogued(anchors, LastOfEach(es))
  {
    var r := LastOfEach(es);
    LastOfEachAscends(es);
    forall e ensures e in r <==> Newest(es, e) {
      LastOfEachMembers(es, e);
    }
    forall e | e in r ensures Prevails(anchors, e.anchor) && e.eff == Start(anchors, e.anchor) {
      forall b | Effective(anchors, b) && b.boot == e.anchor.boot && Start(anchors, b) == Start(anchors, e.anchor)
        ensures b.sequence <= e.anchor.sequence
      {
        var j := AnchorListed(es, b);
        assert es[j] in es && SameStart(es[j], e);
      }
    }
    forall a | Prevails(anchors, a) ensures a in AnchorsOf(r) {
      var i := AnchorListed(es, a);
      assert es[i] in es;
      forall o | o in es && SameStart(o, es[i]) ensures o.anchor.sequence <= a.sequence {
        assert Effective(anchors, o.anchor);
      }
      assert Newest(es, es[i]);
    }
  }

  ghost predicate SameStarts(es: seq<Epoch>, was: seq<Epoch>)
  {
    |es| == |was| && forall i :: 0 <= i < |es| ==> es[i].eff == was[i].eff
  }

  lemma NextStartsLater(anchors: set<Anchor>, es: seq<Epoch>, was: seq<Epoch>, i: nat)
    requires Catalogued(anchors, was) && SameAnchors(es, was) && SameStarts(es, was)
    requires i + 1 < |es| && es[i].anchor.boot == es[i + 1].anchor.boot
    ensures es[i].eff < es[i + 1].eff
  {
    assert Apart(was[i], was[i + 1]);
  }

  lemma BoundsSet(was: seq<Epoch>, es: seq<Epoch>, index: nat)
    requires index < |was| == |es| && (forall i :: 0 <= i < index ==> BoundedAt(was, i))
    requires forall i :: 0 <= i < |es| && i != index ==> es[i] == was[i]
    requires es[index].anchor == was[index].anchor && es[index].eff == was[index].eff && BoundedAt(es, index)
    ensures forall i :: 0 <= i <= index ==> BoundedAt(es, i)
  {
    forall i | 0 <= i < index ensures BoundedAt(es, i) {
      assert BoundedAt(was, i);
    }
  }

  lemma BoundsOnly(anchors: set<Anchor>, es: seq<Epoch>, was: seq<Epoch>)
    requires Catalogued(anchors, was) && SameAnchors(es, was) && SameStarts(es, was)
    ensures Catalogued(anchors, es)
  {
    SameAnchorSet(es, was);
    forall i, j | 0 <= i < j < |es| ensures Apart(es[i], es[j]) {
      assert Apart(was[i], was[j]);
    }
    forall e | e in es ensures Prevails(anchors, e.anchor) && e.eff == Start(anchors, e.anchor) {
      var i :| 0 <= i < |es| && es[i] == e;
      assert was[i] in was;
    }
  }

  // ---------- The anchor ring ----------

  ghost function RingAnchors(ring: seq<Option<Anchor>>): set<Anchor> { set o | o in ring && o.Some? :: o.value }

  ghost predicate SlotsDistinct(ring: seq<Option<Anchor>>)
  {
    forall i, j :: 0 <= i < j < |ring| && ring[i].Some? && ring[j].Some? ==>
      ring[i].value.sequence != ring[j].value.sequence
  }

  /** The greatest sequence number in the ring, 0 when it is empty, and its slot. */
  ghost predicate IsNewest(ring: seq<Option<Anchor>>, newest: nat, slot: nat)
  {
    && (forall i :: 0 <= i < |ring| && ring[i].Some? ==> 0 < ring[i].value.sequence <= newest)
    && (newest != 0 ==> slot < |ring| && ring[slot].Some? && ring[slot].value.sequence == newest)
  }

  /** Slots that hold a valid anchor. */
  function Occupied(ring: seq<Option<Anchor>>): nat
  {
    if ring == [] then 0 else Occupied(ring[..|ring| - 1]) + if ring[|ring| - 1].Some? then 1 else 0
  }

  /** (slot + 1) % count */
  function Following(slot: nat, count: nat): nat { if slot + 1 >= count then 0 else slot + 1 }

  lemma EmptyRing(ring: seq<Option<Anchor>>, es: seq<Epoch>)
    requires es == []
    ensures BySequence(es) && AnchorsOf(es) == RingAnchors(ring[..0]) && IsNewest(ring[..0], 0, 0)
  {
  }

  lemma NotListed(es: seq<Epoch>, a: Anchor)
    requires forall b :: b in AnchorsOf(es) ==> b.sequence != a.sequence
    ensures forall e :: e in es ==> e.anchor.sequence != a.sequence
  {
    forall e | e in es ensures e.anchor.sequence != a.sequence {
      assert e.anchor in AnchorsOf(es);
    }
  }

  lemma NewestStepOf(ring: seq<Option<Anchor>>, slot: nat, newest: nat, newestSlot: nat)
    requires slot < |ring| && IsNewest(ring[..slot], newest, newestSlot) &&
             (ring[slot].Some? ==> ring[slot].value.sequence > 0)
    ensures ring[slot] == None || ring[slot].value.sequence <= newest ==> IsNewest(ring[..slot + 1], newest, newestSlot)
    ensures ring[slot].Some? && ring[slot].value.sequence > newest ==>
            IsNewest(ring[..slot + 1], ring[slot].value.sequence, slot)
  {
    var before, now := ring[..slot], ring[..slot + 1];
    assert now == before + [ring[slot]];
    assert forall i :: 0 <= i < slot ==> now[i] == before[i];
  }

  lemma RingStep(ring: seq<Option<Anchor>>, slot: nat)
    requires slot < |ring| && SlotsDistinct(ring) && Sound(RingAnchors(ring))
    ensures RingAnchors(ring[..slot + 1]) ==
            RingAnchors(ring[..slot]) + if ring[slot].Some? then {ring[slot].value} else {}
    ensures ring[slot].Some? ==> ring[slot].value.sequence > 0
    ensures ring[slot].Some? ==> forall a :: a in RingAnchors(ring[..slot]) ==> a.sequence != ring[slot].value.sequence
  {
    assert ring[..slot + 1] == ring[..slot] + [ring[slot]];
    if ring[slot].Some? {
      assert ring[slot] in ring;
      assert ring[slot].value in RingAnchors(ring);
      forall a | a in RingAnchors(ring[..slot]) ensures a.sequence != ring[slot].value.sequence {
        var o :| o in ring[..slot] && o.Some? && o.value == a;
        var i :| 0 <= i < slot && ring[i] == o;
      }
    }
  }

  // ---------- The epoch table ----------

  class EpochTable {
    const epochs: array<Epoch>
    var count: nat

    /** An empty table with one place for each slot of the ring. */
    constructor (slots: nat)
      ensures Valid() && count == 0 && epochs.Length == slots && fresh(epochs)
    {
      var blank := Epoch(Anchor(0, 0, 0, 0, 0, Origin(0, 0, 0, 0, 0), 0), 0, 0, 0, 0, 0, false);
      epochs := new Epoch[slots](_ => blank);
      count := 0;
    }

    ghost predicate Valid()
      reads this
    {
      count <= epochs.Length
    }

    function Table(): seq<Epoch>
      reads this, epochs
      requires count <= epochs.Length
    {
      epochs[..count]
    }

    /** Shifts newer anchors up by one and returns the place that becomes free. */
    method MakeRoom(sequence: nat) returns (position: nat)
      requires Valid() && count < epochs.Length
      modifies epochs
      ensures position <= count
      ensures forall j :: 0 <= j < position ==> epochs[j] == old(epochs[j])
      ensures forall j :: position < j <= count ==> epochs[j] == old(epochs[j - 1])
      ensures forall j :: position <= j < count ==> old(epochs[j]).anchor.sequence > sequence
      ensures position > 0 ==> epochs[position - 1].anchor.sequence <= sequence
    {
      position := count;
      while position > 0 && epochs[position - 1].anchor.sequence > sequence
        invariant 0 <= position <= count
        invariant forall j :: 0 <= j < position ==> epochs[j] == old(epochs[j])
        invariant forall j :: position < j <= count ==> epochs[j] == old(epochs[j - 1])
        invariant forall j :: position <= j < count ==> old(epochs[j]).anchor.sequence > sequence
      {
        epochs[position] := epochs[position - 1];
        position := position - 1;
      }
    }

    /** Puts a new anchor in its place by sequence number. */
    method InsertAnchor(anchor: Anchor, slot: nat)
      requires Valid() && count < epochs.Length && BySequence(Table())
      requires forall e :: e in Table() ==> e.anchor.sequence != anchor.sequence
      modifies this, epochs
      ensures Valid() && count == old(count) + 1 && BySequence(Table())
      ensures AnchorsOf(Table()) == old(AnchorsOf(Table())) + {anchor}
    {
      hide AnchorsOf, BySequence;
      ghost var was := Table();
      var position := MakeRoom(anchor.sequence);
      epochs[position] := NewEpoch(anchor, slot);
      count := count + 1;
      InsertAtIs(Table(), was, position, NewEpoch(anchor, slot));
      InsertedInOrder(was, position, NewEpoch(anchor, slot));
      InsertedAnchors(was, position, NewEpoch(anchor, slot));
    }

    method FindSequence(sequence: nat, limit: nat) returns (r: Option<nat>)
      requires Valid() && limit <= count
      ensures match r
        case Some(t) => t < limit && epochs[t].anchor.sequence == sequence
        case None => forall k :: 0 <= k < limit ==> epochs[k].anchor.sequence != sequence
    {
      for index := 0 to limit
        invariant forall k :: 0 <= k < index ==> epochs[k].anchor.sequence != sequence
      {
        if epochs[index].anchor.sequence == sequence {
          return Some(index);
        }
      }
      r := None;
    }

    /** Marks every earlier epoch of the same lineage as superseded. */
    method Supersede(index: nat)
      requires Valid() && index < count
      modifies epochs
      ensures forall k :: 0 <= k < epochs.Length ==>
              epochs[k] == Superseded(old(epochs[k]), old(epochs[index]), k < index)
    {
      for prior := 0 to index
        invariant forall k :: 0 <= k < epochs.Length ==>
                  epochs[k] == Superseded(old(epochs[k]), old(epochs[index]), k < prior)
      {
        if epochs[prior].anchor.boot == epochs[index].anchor.boot && epochs[prior].root == epochs[index].root {
          epochs[prior] := epochs[prior].(effective := false);
        }
      }
    }

    /** Follows one anchor's replacement to an older one, whose lineage it joins. */
    method ResolveModel(index: nat, ghost anchors: set<Anchor>) returns (model: Epoch)
      requires Valid() && index < count && BySequence(Table()) && AnchorsOf(Table()) == anchors && Sound(anchors)
      requires Processed(anchors, Table(), index)
      ensures model.anchor == epochs[index].anchor && ResolvedTo(anchors, model)
      ensures model.effective <==> model.root != 0
    {
      hide AnchorsOf, Processed, BySequence;
      var a := epochs[index].anchor;
      TableMember(Table(), index);
      model := epochs[index].(root := a.sequence, eff := a.monotonic, effective := true);
      if a.replace == 0 {
        return;
      }
      var target := FindSequence(a.replace, index);
      TargetIsEarlier(Table(), index, a.replace, target);
      RootStep(anchors, a, if target.Some? then Some(Table()[target.value].anchor) else None);
      if target == None || epochs[target.value].anchor.boot != a.boot {
        model := model.(root := 0, effective := false);
        return;
      }
      var t := epochs[target.value];
      ProcessedAt(anchors, Table(), target.value, index);
      TableMember(Table(), target.value);
      RootOk(anchors, t.anchor);
      if t.root == 0 {
        model := model.(root := 0, effective := false);
      } else {
        model := model.(root := t.root, eff := t.eff);
      }
    }

    method ResolveReplacements(ghost anchors: set<Anchor>)
      requires Valid() && BySequence(Table()) && AnchorsOf(Table()) == anchors && Sound(anchors)
      modifies epochs
      ensures SameAnchors(Table(), old(Table())) && Resolved(anchors, Table()) && BySequence(Table())
      ensures AnchorsOf(Table()) == anchors
    {
      hide AnchorsOf, ResolvedTo, Resolved, ResolvedUpTo;
      ghost var before := Table();
      for index := 0 to count
        invariant SameAnchors(Table(), before) && Processed(anchors, Table(), index)
      {
        ghost var was := Table();
        SameAnchorSet(was, before);
        var model := ResolveModel(index, anchors);
        epochs[index] := model;
        if model.anchor.replace != 0 && model.root != 0 {
          Supersede(index);
        }
        ResolveStep(anchors, was, Table(), index);
      }
      SameAnchorSet(Table(), before);
      AllResolved(anchors, Table());
    }

    /** Drops superseded epochs, moving the others down. */
    method Compact()
      requires Valid()
      modifies this`count, epochs
      ensures Valid() && Table() == Kept(old(Table()))
    {
      ghost var was := Table();
      var compacted := 0;
      for index := 0 to count
        invariant count == |was| && 0 <= compacted <= index && epochs[..compacted] == Kept(was[..index])
        invariant forall j :: index <= j < count ==> epochs[j] == was[j]
      {
        assert was[..index + 1][..index] == was[..index];
        if epochs[index].effective {
          epochs[compacted] := epochs[index];
          compacted := compacted + 1;
        }
      }
      assert was[..count] == was;
      count := compacted;
    }

    /** Shifts the epochs that come after `value` up by one, down from `index`, and returns
        the place that becomes free. */
    method MakeRoomFor(value: Epoch, index: nat) returns (position: nat)
      requires Valid() && index < count
      modifies epochs
      ensures position <= index
      ensures forall j :: 0 <= j < count && (j < position || index < j) ==> epochs[j] == old(epochs[j])
      ensures forall j :: position < j <= index ==> epochs[j] == old(epochs[j - 1])
      ensures forall j :: position <= j < index ==> Before(value, old(epochs[j]))
      ensures position > 0 ==> !Before(value, epochs[position - 1])
    {
      hide Before;
      position := index;
      while position > 0 && Before(value, epochs[position - 1])
        invariant 0 <= position <= index
        invariant forall j :: 0 <= j < count && (j < position || index < j) ==> epochs[j] == old(epochs[j])
        invariant forall j :: position < j <= index ==> epochs[j] == old(epochs[j - 1])
        invariant forall j :: position <= j < index ==> Before(value, old(epochs[j]))
      {
        epochs[position] := epochs[position - 1];
        position := position - 1;
      }
    }

    /** One round of insertion sort. */
    method InsertBack(index: nat)
      requires Valid() && index < count && Distinct(Table()) && InOrder(Table()[..index])
      modifies epochs
      ensures Distinct(Table()) && InOrder(Table()[..index + 1])
      ensures forall e :: e in Table() <==> e in old(Table())
    {
      hide Distinct, InOrder, Before;
      ghost var was := Table();
      var value := epochs[index];
      var position := MakeRoomFor(value, index);
      epochs[position] := value;
      MovedDownIs(Table(), was, position, index);
      MovedDownKeeps(was, position, index);
      MovedDownDistinct(was, position, index);
      MovedDownInOrder(was, position, index);
    }

    method SortEpochs()
      requires Valid() && Distinct(Table())
      modifies epochs
      ensures InOrder(Table()) && |Table()| == |old(Table())|
      ensures forall e :: e in Table() <==> e in old(Table())
    {
      hide Before, Distinct;
      ghost var was := Table();
      for index := 1 to if count == 0 then 1 else count
        invariant Distinct(Table()) && InOrder(Table()[..if index <= count then index else count])
        invariant forall e :: e in Table() <==> e in was
      {
        InsertBack(index);
      }
      assert Table()[..count] == Table();
    }

    /** Of epochs with the same boot and start, keeps the one with the greatest sequence, which comes last. */
    method MergeEqualStarts()
      requires Valid()
      modifies this`count, epochs
      ensures Valid() && Table() == LastOfEach(old(Table()))
    {
      hide LastOfEach, SameStart;
      ghost var was := Table();
      var compacted := 0;
      LastOfNone(was);
      for index := 0 to count
        invariant count == |was| && 0 <= compacted <= index && epochs[..compacted] == LastOfEach(was[..index])
        invariant forall j :: index <= j < count ==> epochs[j] == was[j]
      {
        LastOfEachNext(was, index);
        ghost var before := epochs[..compacted];
        if compacted > 0 && SameStart(epochs[compacted - 1], epochs[index]) {
          epochs[compacted - 1] := epochs[index];
          assert epochs[..compacted] == before[compacted - 1 := was[index]];
        } else {
          epochs[compacted] := epochs[index];
          compacted := compacted + 1;
          assert epochs[..compacted] == before + [was[index]];
        }
      }
      assert was[..count] == was;
      count := compacted;
    }

    method CompactAndSort(ghost anchors: set<Anchor>)
      requires Valid() && Sound(anchors) && Resolved(anchors, Table()) && BySequence(Table()) &&
               AnchorsOf(Table()) == anchors
      modifies this`count, epochs
      ensures Valid() && Catalogued(anchors, Table())
    {
      hide Resolved, AnchorsOf, InOrder, Catalogued, Kept, LastOfEach;
      AnchorsDecideEpochs(anchors, Table());
      Compact();
      ghost var kept := Table();
      hide Effective;
      SortEpochs();
      CollectedSame(anchors, Table(), kept);
      MergedIsCatalogued(anchors, Table());
      MergeEqualStarts();
    }

    /** Gives every epoch its interval: up to the next epoch of the boot, the first one from
        0 and the last one without end. */
    method SetBounds(ghost anchors: set<Anchor>)
      requires Valid() && Catalogued(anchors, Table())
      modifies epochs
      ensures Catalogued(anchors, Table()) && Bounded(Table())
    {
      hide Catalogued;
      ghost var was := Table();
      for index := 0 to count
        invariant SameAnchors(Table(), was) && SameStarts(Table(), was)
        invariant forall i :: 0 <= i < index ==> BoundedAt(Table(), i)
      {
        ghost var before := Table();
        var model := epochs[index];
        var first := index == 0 || epochs[index - 1].anchor.boot != model.anchor.boot;
        var last := index + 1 == count || epochs[index + 1].anchor.boot != model.anchor.boot;
        if !last {
          NextStartsLater(anchors, Table(), was, index);
        }
        epochs[index] :=
          model.(first := if first then 0 else model.eff, last := if last then U64_MAX else epochs[index + 1].eff - 1);
        BoundsSet(before, Table(), index);
      }
      BoundsOnly(anchors, Table(), was);
    }

    /** Takes the valid anchors of the ring into the table and finds the newest one. */
    method LoadAnchors(ring: seq<Option<Anchor>>) returns (newest: nat, newestSlot: nat)
      requires |ring| == epochs.Length > 0 && Sound(RingAnchors(ring)) && SlotsDistinct(ring)
      modifies this, epochs
      ensures Valid() && BySequence(Table()) && AnchorsOf(Table()) == RingAnchors(ring) && count == Occupied(ring)
      ensures IsNewest(ring, newest, newestSlot)
    {
      hide AnchorsOf, RingAnchors, BySequence, IsNewest, Sound, SlotsDistinct;
      newest, newestSlot, count := 0, 0, 0;
      EmptyRing(ring, Table());
      for slot := 0 to |ring|
        invariant count <= slot && count == Occupied(ring[..slot])
        invariant BySequence(Table()) && AnchorsOf(Table()) == RingAnchors(ring[..slot])
        invariant IsNewest(ring[..slot], newest, newestSlot)
      {
        assert ring[..slot + 1][..slot] == ring[..slot];
        RingStep(ring, slot);
        NewestStepOf(ring, slot, newest, newestSlot);
        if ring[slot].Some? {
          var candidate := ring[slot].value;
          NotListed(Table(), candidate);
          InsertAnchor(candidate, slot);
          if candidate.sequence > newest {
            newest, newestSlot := candidate.sequence, slot;
          }
        }
      }
      assert ring[..|ring|] == ring;
    }

    /** Rebuilds the catalog from the anchor ring, where None stands for a slot without a valid anchor, and finds the
        slot that the next anchor goes to: the one after the newest anchor's. */
    method LoadCatalog(ring: seq<Option<Anchor>>) returns (newest: nat, used: nat, writeIndex: nat)
      requires |ring| == epochs.Length > 0 && Sound(RingAnchors(ring)) && SlotsDistinct(ring)
      modifies this, epochs
      ensures Valid() && Catalogued(RingAnchors(ring), Table()) && Bounded(Table()) && used == Occupied(ring)
      ensures exists slot ::
                IsNewest(ring, newest, slot) && writeIndex == if newest == 0 then 0 else Following(slot, |ring|)
    {
      hide Catalogued, Resolved, RingAnchors, BySequence, IsNewest, Sound, SlotsDistinct, AnchorsOf;
      var newestSlot;
      newest, newestSlot := LoadAnchors(ring);
      used := count;
      writeIndex := if newest == 0 then 0 else Following(newestSlot, |ring|);
      ResolveReplacements(RingAnchors(ring));
      CompactAndSort(RingAnchors(ring));
      SetBounds(RingAnchors(ring));
    }
  }

  lemma TableMember(es: seq<Epoch>, i: nat)
    requires i < |es|
    ensures es[i].anchor in AnchorsOf(es)
  {
  }

  lemma ProcessedAt(anchors: set<Anchor>, es: seq<Epoch>, i: nat, done: nat)
    requires i < done <= |es| && Processed(anchors, es, done)
    ensures ResolvedTo(anchors, es[i])
  {
    assert ResolvedUpTo(anchors, es, i, done);
  }

  function Superseded(e: Epoch, newer: Epoch, earlier: bool): Epoch
  {
    if earlier && e.anchor.boot == newer.anchor.boot && e.root == newer.root then e.(effective := false) else e
  }

  /** Processing one more entry: it joins its lineage, and the entries of that lineage before it step back. */
  lemma ResolveStep(anchors: set<Anchor>, was: seq<Epoch>, es: seq<Epoch>, index: nat)
    requires BySequence(was) && AnchorsOf(was) == anchors && Sound(anchors) && index < |was| &&
             Processed(anchors, was, index)
    requires SameAnchors(es, was) && ResolvedTo(anchors, es[index]) && (es[index].effective <==> es[index].root != 0)
    requires forall i :: 0 <= i < index ==>
      es[i] ==
        if es[index].anchor.replace != 0 && es[index].root != 0 then Superseded(was[i], es[index], true) else was[i]
    ensures Processed(anchors, es, index + 1)
  {
    hide AnchorsOf;
    TableMember(was, index);
    RootOk(anchors, es[index].anchor);
    var done := index + 1;
    forall i | 0 <= i < index ensures ResolvedUpTo(anchors, es, i, done) {
      assert ResolvedUpTo(anchors, was, i, index);
      TableMember(was, i);
      RootOk(anchors, was[i].anchor);
      hide Processed, ResolvedTo, Root;
      if es[index].root != 0 {
        SameRootIff(anchors, was[i], es[index]);
        RootOfItself(anchors, was, i, index);
      }
    }
  }

  /** An anchor that replaces nothing starts a lineage of its own, which no earlier anchor can belong to. */
  lemma RootOfItself(anchors: set<Anchor>, es: seq<Epoch>, i: nat, index: nat)
    requires BySequence(es) && i < index < |es|
    ensures es[index].anchor.replace == 0 ==> Root(anchors, es[i].anchor) != Root(anchors, es[index].anchor)
  {
  }
}
