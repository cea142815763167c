/** What a lookup in a list of entries means, and what repeating it with an advancing cursor yields. */
module Lookup {
  import opened Layout
  import opened Segment

  /** TooSmall reports the entry without its payload; Failed covers every other error. */
  datatype Read = Found(e: Entry) | TooSmall(e: Entry) | NotFound | Failed

  function Hit(r: Read): Option<Entry> { if r.Found? || r.TooSmall? then Some(r.e) else None }

  function Deliver(e: Entry, room: nat): (r: Read)
    ensures Hit(r) == Some(e) && (r.Found? <==> |e.payload| <= room)
  {
    if |e.payload| <= room then Found(e) else TooSmall(e)
  }

  /** r is what a lookup in `es` must return to a caller with this much room. */
  ghost predicate Answers(es: seq<Entry>, want: Entry -> bool, room: nat, r: Read)
  {
    !r.Failed? && IsFirst(es, want, Hit(r)) && (Hit(r).Some? ==> r == Deliver(Hit(r).value, room))
  }

  function InRange(first: nat, last: nat): Entry -> bool
  {
    (e: Entry) => first <= e.id <= last
  }

  /** Entries of one boot from an ID on, within an uptime range. */
  function InBoot(boot: nat, lo: nat, hi: nat, first: nat): Entry -> bool
  {
    (e: Entry) => first <= e.id && Boot(e.id) == boot && lo <= e.uptime <= hi
  }

  /** r is the entry with the least ID that satisfies want, or None when there is none. */
  ghost predicate IsFirst(es: seq<Entry>, want: Entry -> bool, r: Option<Entry>)
  {
    match r
    case None => forall x :: x in es ==> !want(x)
    case Some(e) => e in es && want(e) && forall x :: x in es && want(x) ==> e.id <= x.id
  }

  /** The naive filter. */
  function Filter(es: seq<Entry>, want: Entry -> bool): seq<Entry>
  {
    if es == [] then []
    else (if want(es[0]) then [es[0]] else []) + Filter(es[1..], want)
  }

  /** Lookups in lists of entries only depend on which of the entries satisfy the condition. */
  lemma AnswersSame(es: seq<Entry>, a: Entry -> bool, b: Entry -> bool, room: nat, r: Read)
    requires forall x :: x in es ==> (a(x) <==> b(x))
    ensures Answers(es, a, room, r) <==> Answers(es, b, room, r)
  {
  }

  // ---------- Repeating a lookup ----------

  /** After e has been delivered, what is left is what was left before, behind e. */
  ghost predicate Advances(es: seq<Entry>, before: Entry -> bool, after: Entry -> bool, e: Entry)
  {
    forall x :: x in es ==> (after(x) <==> before(x) && e.id < x.id)
  }

  lemma {:induction false} FilterNone(es: seq<Entry>, want: Entry -> bool)
    requires forall x :: x in es ==> !want(x)
    ensures Filter(es, want) == []
  {
    if es != [] {
      assert es[0] in es;
      FilterNone(es[1..], want);
    }
  }

  lemma {:induction false} FilterSame(es: seq<Entry>, a: Entry -> bool, b: Entry -> bool)
    requires forall x :: x in es ==> (a(x) <==> b(x))
    ensures Filter(es, a) == Filter(es, b)
  {
    if es != [] {
      assert es[0] in es;
      FilterSame(es[1..], a, b);
    }
  }

  lemma LaterInIncreasing(es: seq<Entry>)
    requires Increasing(es) && es != []
    ensures Increasing(es[1..]) && forall x :: x in es[1..] ==> x in es && es[0].id < x.id
  {
  }

  /** One element at a time: the head is the match, after which nothing else is left out, or
      it comes before the match. */
  lemma BehindHead(es: seq<Entry>, want: Entry -> bool, after: Entry -> bool, e: Entry)
    requires Increasing(es) && e in es && Advances(es, want, after, e)
    ensures Increasing(es[1..]) && Advances(es[1..], want, after, e) && !after(es[0])
    ensures es[0] == e ==> forall x :: x in es[1..] ==> (want(x) <==> after(x))
    ensures es[0] != e ==> e in es[1..] && es[0] in es && es[0].id < e.id
  {
    LaterInIncreasing(es);
    assert es[0] in es && es == [es[0]] + es[1..];
  }

  /** Delivering the first match and going on behind it takes the head off the naive filter. */
  lemma {:induction false} FilterFirst(es: seq<Entry>, want: Entry -> bool, after: Entry -> bool, e: Entry)
    requires Increasing(es) && IsFirst(es, want, Some(e)) && Advances(es, want, after, e)
    ensures Filter(es, want) == [e] + Filter(es, after)
  {
    BehindHead(es, want, after, e);
    hide Increasing, Advances;
    if es[0] == e {
      FilterSame(es[1..], want, after);
    } else {
      assert forall x :: x in es[1..] ==> x in es;
      FilterFirst(es[1..], want, after, e);
    }
  }

  lemma Joined(head: seq<Entry>, more: seq<Entry>, tail: seq<Entry>, bound: nat)
    requires (forall x :: x in head ==> x.id < bound) && forall x :: x in more ==> x.id < bound
    ensures head + (more + tail) == head + more + tail
    ensures forall x :: x in head + more ==> x.id < bound
  {
  }

  /** Delivering any match and going on behind it leaves out exactly the matches before it. */
  lemma {:induction false} FilterBehind(es: seq<Entry>, want: Entry -> bool, after: Entry -> bool, e: Entry)
    returns (skipped: seq<Entry>)
    requires Increasing(es) && e in es && want(e) && Advances(es, want, after, e)
    ensures Filter(es, want) == skipped + ([e] + Filter(es, after))
    ensures forall x :: x in skipped ==> x.id < e.id
  {
    BehindHead(es, want, after, e);
    hide Increasing, Advances;
    if es[0] == e {
      FilterSame(es[1..], want, after);
      skipped := [];
    } else {
      var more := FilterBehind(es[1..], want, after, e);
      var head := if want(es[0]) then [es[0]] else [];
      assert Filter(es, want) == head + Filter(es[1..], want) && Filter(es, after) == Filter(es[1..], after);
      hide Filter;
      skipped := head + more;
      Joined(head, more, [e] + Filter(es, after), e.id);
    }
  }

  /** Nothing is left out exactly when it was the first match. */
  lemma FilterBehindFirst(es: seq<Entry>, want: Entry -> bool, after: Entry -> bool, e: Entry, skipped: seq<Entry>)
    requires e in es && want(e) && Advances(es, want, after, e)
    requires Filter(es, want) == skipped + ([e] + Filter(es, after)) && forall x :: x in skipped ==> x.id < e.id
    ensures skipped == [] <==> IsFirst(es, want, Some(e))
  {
    FilterMembers(es, want);
    FilterMembers(es, after);
    if skipped != [] {
      assert skipped[0] in skipped && skipped[0] in Filter(es, want);
    }
  }

  lemma {:induction false} FilterMembers(es: seq<Entry>, want: Entry -> bool)
    ensures forall x :: x in Filter(es, want) <==> x in es && want(x)
  {
    if es != [] {
      FilterMembers(es[1..], want);
      assert es == [es[0]] + es[1..];
    }
  }

  // ---------- Lists made of runs ----------

  ghost predicate Sorted(runs: seq<seq<Entry>>)
  {
    Ordered(runs) && forall k :: 0 <= k < |runs| ==> Increasing(runs[k])
  }

  ghost predicate InSomeRun(runs: seq<seq<Entry>>, x: Entry)
  {
    exists k :: 0 <= k < |runs| && x in runs[k]
  }

  lemma {:induction false} FlatMember(runs: seq<seq<Entry>>, x: Entry)
    ensures x in Flat(runs) <==> InSomeRun(runs, x)
  {
    if runs != [] {
      var k := |runs| - 1;
      FlatMember(runs[..k], x);
      if InSomeRun(runs[..k], x) {
        var j :| 0 <= j < k && x in runs[..k][j];
        assert x in runs[j];
      }
      if InSomeRun(runs, x) && !InSomeRun(runs[..k], x) {
        assert forall j :: 0 <= j < k ==> runs[..k][j] == runs[j];
      }
    }
  }

  lemma RunBounds(run: seq<Entry>, x: Entry)
    requires Increasing(run) && x in run
    ensures FirstId(run) <= x.id <= LastId(run)
  {
    var i :| 0 <= i < |run| && run[i] == x;
  }

  lemma RunsApart(runs: seq<seq<Entry>>, a: nat, b: nat, x: Entry, y: Entry)
    requires Ordered(runs) && a < b < |runs| && x in runs[a] && y in runs[b]
    ensures x.id < y.id
  {
    var i :| 0 <= i < |runs[a]| && runs[a][i] == x;
    var j :| 0 <= j < |runs[b]| && runs[b][j] == y;
  }

  ghost predicate NoneIn(run: seq<Entry>, want: Entry -> bool) { forall x :: x in run ==> !want(x) }

  /** An answer from run k answers the whole list when no earlier run has a match and,
      should k have none, no later one has. */
  lemma RunDecides(runs: seq<seq<Entry>>, k: nat, want: Entry -> bool, room: nat, r: Read)
    requires Sorted(runs) && k < |runs| && Answers(runs[k], want, room, r)
    requires forall j :: 0 <= j < k ==> NoneIn(runs[j], want)
    requires r == NotFound ==> forall j :: k < j < |runs| ==> NoneIn(runs[j], want)
    ensures Answers(Flat(runs), want, room, r)
  {
    hide Sorted, Flat;
    forall x | x in Flat(runs) && want(x) ensures Hit(r).Some? && Hit(r).value.id <= x.id {
      FlatMember(runs, x);
      var j: nat :| j < |runs| && x in runs[j];
      MatchIsNotBefore(runs, k, want, room, r, j, x);
    }
    if Hit(r).Some? {
      FlatMember(runs, Hit(r).value);
      assert InSomeRun(runs, Hit(r).value);
    }
  }

  lemma MatchIsNotBefore(runs: seq<seq<Entry>>, k: nat, want: Entry -> bool, room: nat, r: Read, j: nat, x: Entry)
    requires Sorted(runs) && k < |runs| && Answers(runs[k], want, room, r)
    requires forall j :: 0 <= j < k ==> NoneIn(runs[j], want)
    requires r == NotFound ==> forall j :: k < j < |runs| ==> NoneIn(runs[j], want)
    requires j < |runs| && x in runs[j] && want(x)
    ensures Hit(r).Some? && Hit(r).value.id <= x.id
  {
    assert !NoneIn(runs[j], want);
    if j > k {
      RunsApart(runs, k, j, Hit(r).value, x);
    }
  }

  /** The run's ID range meets the range looked for; an exact lookup also wants it to start no later. */
  predicate Overlaps(run: seq<Entry>, first: nat, last: nat, exact: bool)
  {
    run != [] && first <= LastId(run) && FirstId(run) <= last && (exact ==> FirstId(run) <= first)
  }

  lemma ApartHasNone(run: seq<Entry>, first: nat, last: nat, exact: bool)
    requires Increasing(run) && (exact ==> first == last) && !Overlaps(run, first, last, exact)
    ensures NoneIn(run, InRange(first, last))
  {
    forall x | x in run ensures !InRange(first, last)(x) {
      RunBounds(run, x);
    }
  }

  lemma NoOverlapNoMatch(runs: seq<seq<Entry>>, first: nat, last: nat, exact: bool)
    requires Sorted(runs) && (exact ==> first == last)
    requires forall k :: 0 <= k < |runs| ==> !Overlaps(runs[k], first, last, exact)
    ensures IsFirst(Flat(runs), InRange(first, last), None)
  {
    forall x | x in Flat(runs) ensures !InRange(first, last)(x) {
      FlatMember(runs, x);
      var k :| 0 <= k < |runs| && x in runs[k];
      ApartHasNone(runs[k], first, last, exact);
    }
  }

  /** Segment selection is sound: the first run that overlaps the range decides, even by having no match. */
  lemma FirstOverlapDecides(runs: seq<seq<Entry>>, k: nat, first: nat, last: nat, exact: bool, room: nat, r: Read)
    requires Sorted(runs) && k < |runs| && (exact ==> first == last) && Overlaps(runs[k], first, last, exact)
    requires forall j :: 0 <= j < k ==> !Overlaps(runs[j], first, last, exact)
    requires Answers(runs[k], InRange(first, last), room, r)
    ensures Answers(Flat(runs), InRange(first, last), room, r)
  {
    forall j | 0 <= j < k ensures NoneIn(runs[j], InRange(first, last)) {
      ApartHasNone(runs[j], first, last, exact);
    }
    if r == NotFound {
      var newest := runs[k][|runs[k]| - 1];
      assert newest in runs[k] && !InRange(first, last)(newest);
      forall j, x | k < j < |runs| && x in runs[j] ensures !InRange(first, last)(x) {
        RunsApart(runs, k, j, newest, x);
      }
    }
    RunDecides(runs, k, InRange(first, last), room, r);
  }
}
