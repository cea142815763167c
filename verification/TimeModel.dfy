/** Which time anchor governs which stretch of a boot's uptime: the declarative model, and
    the tables that must agree with it. */
module TimeModel {
  import opened Layout

  const SOURCES_ALL := 0x3f
  const FLAGS_ALL := 0x7

  /** Where a time came from: a mask of six sources and how many readings agreed, quality 0 or 1, and three flags. */
  datatype Origin = Origin(sources: nat, count: nat, quality: nat, flags: nat, uncertainty: nat)

  /** newest: the newest entry ID when the anchor was taken. */
  datatype Anchor = Anchor(sequence: nat, boot: nat, monotonic: nat, utc: nat, replace: nat, origin: Origin,
                           newest: nat)

  datatype Epoch = Epoch(anchor: Anchor, root: nat, eff: nat, first: nat, last: nat, slot: nat, effective: bool)

  function BitCount(value: nat): nat { if value == 0 then 0 else value % 2 + BitCount(value / 2) }

  /** Some known source, no unknown one, and a reading for each. */
  predicate OriginOk(o: Origin)
  {
    0 < o.sources <= SOURCES_ALL && 0 < o.count && BitCount(o.sources) <= o.count && o.quality <= 1 &&
      o.flags <= FLAGS_ALL
  }

  predicate AnchorOk(a: Anchor)
  {
    && OriginOk(a.origin)
    && 0 < a.sequence <= U64_MAX && 0 < a.boot <= BOOT_MASK && 0 < a.utc <= U64_MAX && a.monotonic <= U64_MAX
    && a.replace < a.sequence
  }

  ghost predicate Sound(anchors: set<Anchor>)
  {
    && (forall a :: a in anchors ==> AnchorOk(a))
    && forall a, b :: a in anchors && b in anchors && a.sequence == b.sequence ==> a == b
  }

  // ---------- The declarative model ----------

  ghost function Target(anchors: set<Anchor>, sequence: nat): (r: Option<Anchor>)
    ensures r.Some? ==> r.value in anchors && r.value.sequence == sequence
    ensures r == None ==> forall a :: a in anchors ==> a.sequence != sequence
  {
    if exists a :: a in anchors && a.sequence == sequence then
      var a :| a in anchors && a.sequence == sequence;
      Some(a)
    else None
  }

  /** The anchor that a chain of replacements started from; None when the chain is broken or leaves the boot. */
  ghost function Root(anchors: set<Anchor>, a: Anchor): (r: Option<Anchor>)
    ensures r.Some? ==>
            r.value.boot == a.boot && r.value.sequence <= a.sequence && r.value.replace == 0 &&
              (r.value in anchors || r.value == a)
    decreases a.sequence
  {
    if a.replace == 0 then Some(a)
    else
      match Target(anchors, a.replace)
      case None => None
      case Some(t) => if a.replace >= a.sequence || t.boot != a.boot then None else Root(anchors, t)
  }

  /** The newest anchor of its lineage. */
  ghost predicate Effective(anchors: set<Anchor>, a: Anchor)
  {
    && a in anchors && Root(anchors, a).Some?
    && forall b :: b in anchors && Root(anchors, b) == Root(anchors, a) ==> b.sequence <= a.sequence
  }

  /** A lineage takes effect at the uptime of its root, whoever speaks for it now. */
  ghost function Start(anchors: set<Anchor>, a: Anchor): nat
  {
    if Root(anchors, a).Some? then Root(anchors, a).value.monotonic else a.monotonic
  }

  /** No other lineage of the boot takes effect at the same uptime with a newer anchor. */
  ghost predicate Prevails(anchors: set<Anchor>, a: Anchor)
  {
    && Effective(anchors, a)
    && forall b :: Effective(anchors, b) && b.boot == a.boot && Start(anchors, b) == Start(anchors, a) ==>
       b.sequence <= a.sequence
  }

  /** The anchor that dates this uptime of this boot: the last to take effect by then, or, before any has, the first. */
  ghost predicate Governs(anchors: set<Anchor>, a: Anchor, boot: nat, uptime: nat)
  {
    && Prevails(anchors, a) && a.boot == boot
    && (Start(anchors, a) <= uptime ==>
          forall b :: Prevails(anchors, b) && b.boot == boot && Start(anchors, b) <= uptime ==>
            Start(anchors, b) <= Start(anchors, a))
    && (Start(anchors, a) > uptime ==> forall b :: Prevails(anchors, b) && b.boot == boot ==>
        Start(anchors, a) <= Start(anchors, b))
  }

  // ---------- Epoch tables ----------

  ghost function AnchorsOf(es: seq<Epoch>): (r: set<Anchor>) { set e | e in es :: e.anchor }

  ghost predicate BySequence(es: seq<Epoch>)
  {
    forall i, j :: 0 <= i < j < |es| ==> es[i].anchor.sequence < es[j].anchor.sequence
  }

  ghost predicate ResolvedTo(anchors: set<Anchor>, e: Epoch)
  {
    && e.root == (match Root(anchors, e.anchor) case Some(t) => t.sequence case None => 0)
    && (e.root != 0 ==> e.eff == Start(anchors, e.anchor))
  }

  /** Every replacement has been followed and every superseded anchor marked. */
  ghost predicate Resolved(anchors: set<Anchor>, es: seq<Epoch>)
  {
    forall e :: e in es ==> ResolvedTo(anchors, e) && (e.effective <==> Effective(anchors, e.anchor))
  }

  predicate Before(left: Epoch, right: Epoch)
  {
    if left.anchor.boot != right.anchor.boot then left.anchor.boot < right.anchor.boot
    else if left.eff != right.eff then left.eff < right.eff
    else left.anchor.sequence < right.anchor.sequence
  }

  ghost predicate InOrder(es: seq<Epoch>)
  {
    forall i, j :: 0 <= i < j < |es| ==> Before(es[i], es[j])
  }

  /** Starts ascend strictly within a boot, and boots ascend. */
  predicate Apart(left: Epoch, right: Epoch)
  {
    left.anchor.boot < right.anchor.boot || (left.anchor.boot == right.anchor.boot && left.eff < right.eff)
  }

  ghost predicate Ascending(es: seq<Epoch>)
  {
    forall i, j :: 0 <= i < j < |es| ==> Apart(es[i], es[j])
  }

  /** The table holds exactly the prevailing anchors, in order of boot and start. */
  ghost predicate Catalogued(anchors: set<Anchor>, es: seq<Epoch>)
  {
    && Ascending(es)
    && (forall e :: e in es ==> Prevails(anchors, e.anchor) && e.eff == Start(anchors, e.anchor))
    && forall a :: Prevails(anchors, a) ==> a in AnchorsOf(es)
  }

  predicate FirstOfBoot(es: seq<Epoch>, i: nat)
    requires i < |es|
  {
    i == 0 || es[i - 1].anchor.boot != es[i].anchor.boot
  }

  predicate LastOfBoot(es: seq<Epoch>, i: nat)
    requires i < |es|
  {
    i + 1 == |es| || es[i + 1].anchor.boot != es[i].anchor.boot
  }

  ghost predicate BoundedAt(es: seq<Epoch>, i: nat)
    requires i < |es|
  {
    && es[i].first == (if FirstOfBoot(es, i) then 0 else es[i].eff)
    && es[i].last == (if LastOfBoot(es, i) then U64_MAX else es[i + 1].eff - 1)
  }

  ghost predicate Bounded(es: seq<Epoch>)
  {
    forall i :: 0 <= i < |es| ==> BoundedAt(es, i)
  }

  predicate Covers(e: Epoch, boot: nat, uptime: nat) { e.anchor.boot == boot && e.first <= uptime <= e.last }

  // ---------- The table computes the model ----------

  lemma AnchorListed(es: seq<Epoch>, a: Anchor) returns (i: nat)
    requires a in AnchorsOf(es)
    ensures i < |es| && es[i].anchor == a
  {
    var e :| e in es && e.anchor == a;
    i :| i < |es| && es[i] == e;
  }

  /** Among the epochs of a boot, only the last one starting by `uptime` (or the first one) can cover it. */
  lemma CoversIff(es: seq<Epoch>, i: nat, boot: nat, uptime: nat)
    requires Ascending(es) && Bounded(es) && i < |es| && es[i].anchor.boot == boot && uptime <= U64_MAX
    ensures Covers(es[i], boot, uptime) <==>
            && (es[i].eff <= uptime ==>
                forall j :: 0 <= j < |es| && es[j].anchor.boot == boot && es[j].eff <= uptime ==>
                  es[j].eff <= es[i].eff)
            && (es[i].eff > uptime ==> forall j :: 0 <= j < |es| && es[j].anchor.boot == boot ==>
                es[i].eff <= es[j].eff)
  {
    assert BoundedAt(es, i);
    assert !FirstOfBoot(es, i) ==> Apart(es[i - 1], es[i]);
    if !LastOfBoot(es, i) {
      assert Apart(es[i], es[i + 1]);
    }
    forall j | 0 <= j < |es| && es[j].anchor.boot == boot
      ensures j < i ==> es[j].eff < es[i].eff && !FirstOfBoot(es, i)
      ensures j > i ==> es[j].eff > es[i].eff && !LastOfBoot(es, i) && es[j].eff >= es[i + 1].eff
    {
      if j < i {
        assert Apart(es[j], es[i]);
        if j < i - 1 {
          assert Apart(es[j], es[i - 1]);
        }
      } else if j > i {
        assert Apart(es[i], es[j]);
        if j > i + 1 {
          assert Apart(es[i + 1], es[j]);
        }
      }
    }
  }

  /** The main result about the catalog: an epoch covers an uptime exactly when its anchor governs it. */
  lemma CoversIsGoverns(anchors: set<Anchor>, es: seq<Epoch>, i: nat, boot: nat, uptime: nat)
    requires Catalogued(anchors, es) && Bounded(es) && i < |es| && uptime <= U64_MAX
    ensures Covers(es[i], boot, uptime) <==> Governs(anchors, es[i].anchor, boot, uptime)
  {
    var a := es[i].anchor;
    assert es[i] in es;
    if a.boot == boot {
      CoversIff(es, i, boot, uptime);
      if Governs(anchors, a, boot, uptime) {
        forall j | 0 <= j < |es| && es[j].anchor.boot == boot
          ensures es[i].eff <= uptime && es[j].eff <= uptime ==> es[j].eff <= es[i].eff
          ensures es[i].eff > uptime ==> es[i].eff <= es[j].eff
        {
          assert es[j] in es && Prevails(anchors, es[j].anchor);
        }
      }
      if Covers(es[i], boot, uptime) {
        forall b | Prevails(anchors, b) && b.boot == boot
          ensures Start(anchors, a) <= uptime && Start(anchors, b) <= uptime ==> Start(anchors, b) <= Start(anchors, a)
          ensures Start(anchors, a) > uptime ==> Start(anchors, a) <= Start(anchors, b)
        {
          var j := AnchorListed(es, b);
          assert es[j] in es;
        }
      }
    }
  }

  /** Distinct epochs never cover the same uptime of a boot. */
  lemma CoversOnce(es: seq<Epoch>, i: nat, j: nat, boot: nat, uptime: nat)
    requires Ascending(es) && Bounded(es) && i < j < |es| && uptime <= U64_MAX
    ensures !(Covers(es[i], boot, uptime) && Covers(es[j], boot, uptime))
  {
    assert Apart(es[i], es[j]);
    assert BoundedAt(es, i) && BoundedAt(es, j);
    if es[i].anchor.boot == es[j].anchor.boot {
      assert Apart(es[i], es[i + 1]);
      if i + 1 < j {
        assert Apart(es[i + 1], es[j]) && Apart(es[j - 1], es[j]) && (i < j - 1 ==> Apart(es[i], es[j - 1]));
      }
    }
  }

  /** A boot with any epoch has one for every uptime: the intervals tile 0..U64_MAX. */
  lemma {:induction false} CoveredFrom(es: seq<Epoch>, i: nat, uptime: nat) returns (k: nat)
    requires Ascending(es) && Bounded(es) && i < |es| && es[i].first <= uptime <= U64_MAX
    ensures i <= k < |es| && Covers(es[k], es[i].anchor.boot, uptime)
    decreases |es| - i
  {
    assert BoundedAt(es, i);
    if uptime <= es[i].last {
      k := i;
    } else {
      assert BoundedAt(es, i + 1);
      k := CoveredFrom(es, i + 1, uptime);
    }
  }

  lemma {:induction false} FirstEpochOf(es: seq<Epoch>, i: nat) returns (k: nat)
    requires Bounded(es) && i < |es|
    ensures k < |es| && es[k].anchor.boot == es[i].anchor.boot && es[k].first == 0
  {
    assert BoundedAt(es, i);
    if FirstOfBoot(es, i) {
      k := i;
    } else {
      k := FirstEpochOf(es, i - 1);
    }
  }

  lemma EveryUptimeCovered(es: seq<Epoch>, i: nat, uptime: nat) returns (k: nat)
    requires Ascending(es) && Bounded(es) && i < |es| && uptime <= U64_MAX
    ensures k < |es| && Covers(es[k], es[i].anchor.boot, uptime)
  {
    var s := FirstEpochOf(es, i);
    k := CoveredFrom(es, s, uptime);
  }

  // ---------- The model itself is a function of boot and uptime ----------

  lemma GovernorIsUnique(anchors: set<Anchor>, a: Anchor, b: Anchor, boot: nat, uptime: nat)
    requires Sound(anchors) && Governs(anchors, a, boot, uptime) && Governs(anchors, b, boot, uptime)
    ensures a == b
  {
  }

  /** A lineage is represented by exactly one anchor. */
  lemma OnePerLineage(anchors: set<Anchor>, a: Anchor, b: Anchor)
    requires Sound(anchors) && Effective(anchors, a) && Effective(anchors, b) && Root(anchors, a) == Root(anchors, b)
    ensures a == b
  {
  }

  lemma {:induction false} NewestOf(anchors: set<Anchor>, root: Anchor, among: set<Anchor>) returns (a: Anchor)
    requires Sound(anchors) && among <= anchors && exists b :: b in among && Root(anchors, b) == Some(root)
    ensures a in among && Root(anchors, a) == Some(root)
    ensures forall b :: b in among && Root(anchors, b) == Some(root) ==> b.sequence <= a.sequence
    decreases |among|
  {
    var b :| b in among && Root(anchors, b) == Some(root);
    if exists c :: c in among - {b} && Root(anchors, c) == Some(root) {
      a := NewestOf(anchors, root, among - {b});
      if b.sequence > a.sequence {
        a := b;
      }
    } else {
      a := b;
    }
  }

  /** Every lineage with a root is represented, so a resolvable anchor never disappears
      without a newer one taking its place. */
  lemma LineageRepresented(anchors: set<Anchor>, b: Anchor) returns (a: Anchor)
    requires Sound(anchors) && b in anchors && Root(anchors, b).Some?
    ensures Effective(anchors, a) && Root(anchors, a) == Root(anchors, b)
  {
    a := NewestOf(anchors, Root(anchors, b).value, anchors);
  }

  // ---------- The model of one boot depends on that boot's anchors alone ----------

  ghost predicate AgreeOn(a: set<Anchor>, b: set<Anchor>, boot: nat)
  {
    forall x: Anchor :: x.boot == boot ==> (x in a <==> x in b)
  }

  lemma {:induction false} RootLocal(a: set<Anchor>, b: set<Anchor>, boot: nat, x: Anchor)
    requires Sound(a) && Sound(b) && AgreeOn(a, b, boot) && x.boot == boot
    ensures Root(a, x) == Root(b, x)
    decreases x.sequence
  {
    var s, t := Target(a, x.replace), Target(b, x.replace);
    if x.replace != 0 && x.replace < x.sequence {
      if s.Some? && s.value.boot == boot {
        assert t == s;
        RootLocal(a, b, boot, s.value);
      }
    }
  }

  lemma EffectiveLocal(a: set<Anchor>, b: set<Anchor>, boot: nat, x: Anchor)
    requires Sound(a) && Sound(b) && AgreeOn(a, b, boot) && x.boot == boot
    ensures Effective(a, x) <==> Effective(b, x)
    ensures Start(a, x) == Start(b, x)
  {
    RootLocal(a, b, boot, x);
    hide Root, Sound;
    forall y | y in a && Root(a, y) == Root(a, x) && Root(a, x).Some?
      ensures y.boot == boot && Root(b, y) == Root(b, x)
    {
      RootLocal(a, b, boot, y);
    }
    forall y | y in b && Root(b, y) == Root(b, x) && Root(b, x).Some?
      ensures y.boot == boot && Root(a, y) == Root(a, x)
    {
      RootLocal(a, b, boot, y);
    }
  }

  lemma PrevailsLocal(a: set<Anchor>, b: set<Anchor>, boot: nat, x: Anchor)
    requires Sound(a) && Sound(b) && AgreeOn(a, b, boot) && x.boot == boot
    ensures Prevails(a, x) <==> Prevails(b, x)
  {
    hide Effective, Start, Sound;
    forall y: Anchor | y.boot == boot ensures (Effective(a, y) <==> Effective(b, y)) && Start(a, y) == Start(b, y) {
      EffectiveLocal(a, b, boot, y);
    }
  }

  /** Anchors of other boots, and the loss or gain of any of them, never change how a boot is dated. */
  lemma GovernsLocal(a: set<Anchor>, b: set<Anchor>, x: Anchor, boot: nat, uptime: nat)
    requires Sound(a) && Sound(b) && AgreeOn(a, b, boot)
    ensures Governs(a, x, boot, uptime) <==> Governs(b, x, boot, uptime)
  {
    hide Prevails, Start, Sound;
    forall y: Anchor | y.boot == boot ensures (Prevails(a, y) <==> Prevails(b, y)) && Start(a, y) == Start(b, y) {
      PrevailsLocal(a, b, boot, y);
      EffectiveLocal(a, b, boot, y);
    }
  }
}
