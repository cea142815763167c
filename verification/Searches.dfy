/** Searching one segment: why the binary searches in its sparse index start the scan early
    enough, and when they do not. */
module Searches {
  import opened Layout
  import opened Segment
  import opened Lookup
  import opened ReadFacts

  // ---------- Scanning a tail of a run ----------

  /** An answer from the tail is an answer from the run exactly when the part before the tail has no match. */
  lemma TailAnswers(run: seq<Entry>, from: nat, want: Entry -> bool, room: nat, r: Read)
    requires Increasing(run) && from <= |run| && Answers(run[from..], want, room, r)
    ensures Answers(run, want, room, r) <==> NoneIn(run[..from], want)
  {
    assert run == run[..from] + run[from..];
    if !NoneIn(run[..from], want) {
      var x :| x in run[..from] && want(x);
      var i :| 0 <= i < from && run[i] == x;
      if Hit(r).Some? {
        var j :| 0 <= j < |run[from..]| && run[from..][j] == Hit(r).value;
        assert run[i].id < run[from + j].id;
      }
    }
    if NoneIn(run[..from], want) {
      forall x | x in run && want(x) ensures x in run[from..] {
      }
    }
  }

  /** The scan has passed run[from..i] without a match and stands at entry i. */
  ghost predicate Scanned(run: seq<Entry>, from: nat, want: Entry -> bool, i: nat, offset: nat)
  {
    from <= i <= |run| && offset == Off(run, i) && forall j :: from <= j < i ==> !want(run[j])
  }

  lemma ScanStart(run: seq<Entry>, from: nat, want: Entry -> bool)
    requires from <= |run|
    ensures Scanned(run, from, want, from, Off(run, from))
  {
  }

  lemma ScanNext(run: seq<Entry>, from: nat, want: Entry -> bool, i: nat, offset: nat)
    requires Scanned(run, from, want, i, offset) && i < |run| && !want(run[i])
    ensures Scanned(run, from, want, i + 1, offset + Size(run[i]))
  {
    OffStep(run, i);
  }

  lemma ScanEnds(run: seq<Entry>, from: nat, want: Entry -> bool, i: nat, offset: nat)
    requires Scanned(run, from, want, i, offset)
    ensures offset == Off(run, i) && (offset < End(run) <==> i < |run|)
  {
    OffMonotone(run, i, |run|);
  }

  lemma ScanHit(run: seq<Entry>, from: nat, want: Entry -> bool, i: nat, offset: nat, room: nat)
    requires Increasing(run) && Scanned(run, from, want, i, offset) && i < |run| && want(run[i])
    ensures Answers(run[from..], want, room, Deliver(run[i], room))
  {
    assert run[from..][i - from] == run[i];
    forall x | x in run[from..] && want(x) ensures run[i].id <= x.id {
      var j :| 0 <= j < |run[from..]| && run[from..][j] == x;
      assert run[from + j] == x;
    }
  }

  lemma ScanMiss(run: seq<Entry>, from: nat, want: Entry -> bool, i: nat, offset: nat, room: nat)
    requires Scanned(run, from, want, i, offset) && forall j :: i <= j < |run| ==> !want(run[j])
    ensures Answers(run[from..], want, room, NotFound)
  {
    forall x | x in run[from..] ensures !want(x) {
      var j :| 0 <= j < |run[from..]| && run[from..][j] == x;
      assert run[from + j] == x;
    }
  }

  /** The scan stands at entry i; before its first record it holds the index item it started
      from, afterwards the last record. */
  ghost predicate Standing(run: seq<Entry>, from: nat, want: Entry -> bool, i: nat, offset: nat,
                           start: Option<IndexItem>, previous: Option<Entry>)
  {
    && Scanned(run, from, want, i, offset)
    && (previous == None && i < |run| ==> start == Some(ItemOf(run[i], offset)))
    && (previous.Some? ==> 0 < i && previous.value == run[i - 1])
  }

  /** The first record is not the one the index promised. */
  predicate Misplaced(start: Option<IndexItem>, previous: Option<Entry>, e: Entry, offset: nat)
  {
    previous == None && start.Some? && start.value.id != 0 && start.value != ItemOf(e, offset)
  }

  predicate OutOfOrder(previous: Entry, e: Entry)
  {
    e.id <= previous.id || (Boot(e.id) == Boot(previous.id) && e.uptime < previous.uptime)
  }

  lemma IdsOutOfOrder(previous: Entry, e: Entry)
    requires e.id <= previous.id
    ensures OutOfOrder(previous, e)
  {
  }

  lemma StandAtStart(run: seq<Entry>, m: nat, want: Entry -> bool)
    requires m < |Sample(run)|
    ensures STRIDE * m < |run|
    ensures Standing(run, STRIDE * m, want, STRIDE * m, Sample(run)[m].offset, Some(Sample(run)[m]), None)
  {
    SampleAt(run, m);
    ScanStart(run, STRIDE * m, want);
  }

  lemma StandHere(run: seq<Entry>, from: nat, want: Entry -> bool, i: nat, offset: nat, start: Option<IndexItem>,
                  previous: Option<Entry>)
    requires Standing(run, from, want, i, offset, start, previous) && Increasing(run) && TimelyRun(run)
    ensures offset == Off(run, i) && (offset < End(run) <==> i < |run|)
    ensures i < |run| ==>
            !Misplaced(start, previous, run[i], offset) && (previous.Some? ==> !OutOfOrder(previous.value, run[i]))
  {
    ScanEnds(run, from, want, i, offset);
  }

  lemma StandNext(run: seq<Entry>, from: nat, want: Entry -> bool, i: nat, offset: nat, start: Option<IndexItem>,
                  previous: Option<Entry>)
    requires Standing(run, from, want, i, offset, start, previous) && i < |run| && !want(run[i])
    ensures Standing(run, from, want, i + 1, offset + Size(run[i]), start, Some(run[i]))
  {
    ScanNext(run, from, want, i, offset);
  }

  lemma BootScanHit(run: seq<Entry>, from: nat, want: Entry -> bool, i: nat, offset: nat, start: Option<IndexItem>,
                    previous: Option<Entry>, room: nat, skips: bool)
    requires Increasing(run) && Standing(run, from, want, i, offset, start, previous) && i < |run|
    requires (NoneIn(run[..from], want) <==> !skips) && want(run[i])
    ensures Partial(run, want, room, Deliver(run[i], room), skips)
  {
    ScanHit(run, from, want, i, offset, room);
    assert TailOf(run, from, want, room, Deliver(run[i], room), skips);
  }

  lemma BootScanMiss(run: seq<Entry>, from: nat, boot: nat, lo: nat, hi: nat, first: nat, i: nat, offset: nat,
                     start: Option<IndexItem>, previous: Option<Entry>, room: nat, skips: bool)
    requires Increasing(run) && TimelyRun(run) &&
             Standing(run, from, InBoot(boot, lo, hi, first), i, offset, start, previous)
    requires NoneIn(run[..from], InBoot(boot, lo, hi, first)) <==> !skips
    requires i < |run| ==> Boot(run[i].id) > boot || (Boot(run[i].id) == boot && run[i].uptime > hi)
    ensures Partial(run, InBoot(boot, lo, hi, first), room, NotFound, skips)
  {
    if i < |run| {
      NoneAfter(run, i, boot, lo, hi, first);
    }
    ScanMiss(run, from, InBoot(boot, lo, hi, first), i, offset, room);
    assert TailOf(run, from, InBoot(boot, lo, hi, first), room, NotFound, skips);
  }

  lemma RangeHit(run: seq<Entry>, from: nat, first: nat, last: nat, i: nat, offset: nat, start: Option<IndexItem>,
                 previous: Option<Entry>, room: nat)
    requires Increasing(run) && Standing(run, from, InRange(first, last), i, offset, start, previous) && i < |run|
    requires NoneIn(run[..from], InRange(first, last)) && InRange(first, last)(run[i])
    ensures Answers(run, InRange(first, last), room, Deliver(run[i], room))
  {
    ScanHit(run, from, InRange(first, last), i, offset, room);
    TailAnswers(run, from, InRange(first, last), room, Deliver(run[i], room));
  }

  lemma RangeMiss(run: seq<Entry>, from: nat, first: nat, last: nat, i: nat, offset: nat, start: Option<IndexItem>,
                  previous: Option<Entry>, room: nat)
    requires Increasing(run) && Standing(run, from, InRange(first, last), i, offset, start, previous)
    requires NoneIn(run[..from], InRange(first, last)) && (i < |run| ==> run[i].id > last)
    ensures Answers(run, InRange(first, last), room, NotFound)
  {
    ScanMiss(run, from, InRange(first, last), i, offset, room);
    TailAnswers(run, from, InRange(first, last), room, NotFound);
  }

  // ---------- Starting by entry ID ----------

  ghost predicate IdsSorted(index: seq<IndexItem>)
  {
    forall a, b :: 0 <= a < b < |index| ==> index[a].id < index[b].id
  }

  lemma {:induction false} AdjacentIds(index: seq<IndexItem>, a: nat, b: nat)
    requires forall m :: 0 < m < |index| ==> ItemsOrdered(index[m - 1], index[m])
    requires a < b < |index|
    ensures index[a].id < index[b].id && ItemsOrdered(index[a], index[b])
  {
    assert ItemsOrdered(index[b - 1], index[b]);
    if a + 1 < b {
      AdjacentIds(index, a, b - 1);
      BootMonotone(index[a].id, index[b - 1].id);
      BootMonotone(index[b - 1].id, index[b].id);
    }
  }

  lemma ConsistentSorted(d: Desc, index: seq<IndexItem>)
    requires IndexConsistent(d, index)
    ensures forall a, b :: 0 <= a < b < |index| ==> ItemsOrdered(index[a], index[b])
  {
    forall a, b | 0 <= a < b < |index| ensures ItemsOrdered(index[a], index[b]) {
      AdjacentIds(index, a, b);
    }
  }

  lemma BootMonotone(a: nat, b: nat)
    requires a <= b
    ensures Boot(a) <= Boot(b)
  {
  }

  /** Item m is the last one not past the ID looked for, or item 0. */
  ghost predicate StartsAt(index: seq<IndexItem>, id: nat, m: nat)
  {
    m < |index| && (m == 0 || index[m].id <= id)
  }

  /** Nothing before the chosen start can lie in the range. */
  lemma StartMissesNothing(run: seq<Entry>, m: nat, want: Entry -> bool, first: nat)
    requires Increasing(run) && StartsAt(Sample(run), first, m) && forall e :: want(e) ==> first <= e.id
    ensures STRIDE * m < |run| && NoneIn(run[..STRIDE * m], want)
  {
    SampleAt(run, m);
    forall x | x in run[..STRIDE * m] ensures !want(x) {
      var j :| 0 <= j < STRIDE * m && run[j] == x;
      assert run[j].id < run[STRIDE * m].id;
    }
  }

  // ---------- Starting by uptime ----------

  /** The item does not lie past this uptime of this boot. */
  predicate NotPast(item: IndexItem, boot: nat, uptime: nat)
  {
    Boot(item.id) < boot || (Boot(item.id) == boot && item.uptime <= uptime)
  }

  lemma NotPastDown(a: IndexItem, b: IndexItem, boot: nat, uptime: nat)
    requires ItemsOrdered(a, b) && NotPast(b, boot, uptime)
    ensures NotPast(a, boot, uptime)
  {
    BootMonotone(a.id, b.id);
  }

  /** Item m is the last one not past the uptime looked for, or item 0 when there is none. */
  ghost predicate BootStartsAt(index: seq<IndexItem>, boot: nat, uptime: nat, m: nat)
  {
    && m < |index|
    && (m == 0 || NotPast(index[m], boot, uptime))
    && forall j :: m < j < |index| ==> !NotPast(index[j], boot, uptime)
  }

  /** Index group m begins between two entries of the boot that were both stamped with the range's first uptime. */
  predicate SkipAt(run: seq<Entry>, boot: nat, lo: nat, first: nat, m: nat)
    requires 0 < m < IndexCount(|run|)
  {
    var before, after := run[STRIDE * m - 1], run[STRIDE * m];
    Boot(before.id) == boot == Boot(after.id) && before.uptime == lo == after.uptime && first <= before.id
  }

  /** The search by uptime starts past a match. */
  predicate Skips(run: seq<Entry>, boot: nat, lo: nat, hi: nat, first: nat)
  {
    lo <= hi && exists m :: 0 < m < IndexCount(|run|) && SkipAt(run, boot, lo, first, m)
  }

  lemma SkippedMatch(run: seq<Entry>, m: nat, boot: nat, lo: nat, hi: nat, first: nat) returns (j: nat)
    requires Increasing(run) && BootStartsAt(Sample(run), boot, lo, m) && Skips(run, boot, lo, hi, first)
    ensures j < STRIDE * m < |run| && InBoot(boot, lo, hi, first)(run[j])
  {
    var s :| 0 < s < IndexCount(|run|) && SkipAt(run, boot, lo, first, s);
    SampleAt(run, s);
    SampleAt(run, m);
    assert NotPast(Sample(run)[s], boot, lo);
    j := STRIDE * s - 1;
  }

  lemma MatchBeforeStart(run: seq<Entry>, m: nat, boot: nat, lo: nat, hi: nat, first: nat, j: nat)
    requires Increasing(run) && TimelyRun(run) && BootStartsAt(Sample(run), boot, lo, m)
    requires j < STRIDE * m && j < |run| && InBoot(boot, lo, hi, first)(run[j])
    ensures Skips(run, boot, lo, hi, first)
  {
    SampleAt(run, m);
    var before, after := run[STRIDE * m - 1], run[STRIDE * m];
    assert run[j].id <= before.id < after.id;
    BootMonotone(run[j].id, before.id);
    BootMonotone(before.id, after.id);
    assert NotPast(Sample(run)[m], boot, lo);
    assert SkipAt(run, boot, lo, first, m);
  }

  /** The search by uptime starts past a match exactly when an index group begins between two entries
      stamped with the range's first uptime. */
  lemma BootStartExact(run: seq<Entry>, m: nat, boot: nat, lo: nat, hi: nat, first: nat)
    requires Increasing(run) && TimelyRun(run) && BootStartsAt(Sample(run), boot, lo, m)
    ensures STRIDE * m < |run|
    ensures NoneIn(run[..STRIDE * m], InBoot(boot, lo, hi, first)) <==> !Skips(run, boot, lo, hi, first)
  {
    SampleAt(run, m);
    if Skips(run, boot, lo, hi, first) {
      var j := SkippedMatch(run, m, boot, lo, hi, first);
      assert run[..STRIDE * m][j] == run[j];
    } else {
      forall x | x in run[..STRIDE * m] ensures !InBoot(boot, lo, hi, first)(x) {
        var j :| 0 <= j < STRIDE * m && run[j] == x;
        if InBoot(boot, lo, hi, first)(x) {
          MatchBeforeStart(run, m, boot, lo, hi, first, j);
        }
      }
    }
  }

  /** Past this entry no entry of the run can match. */
  lemma NoneAfter(run: seq<Entry>, i: nat, boot: nat, lo: nat, hi: nat, first: nat)
    requires Increasing(run) && TimelyRun(run) && i < |run|
    requires Boot(run[i].id) > boot || (Boot(run[i].id) == boot && run[i].uptime > hi)
    ensures forall j :: i <= j < |run| ==> !InBoot(boot, lo, hi, first)(run[j])
  {
    forall j | i <= j < |run| ensures !InBoot(boot, lo, hi, first)(run[j]) {
      BootMonotone(run[i].id, run[j].id);
    }
  }

  ghost predicate StrictUptimes(run: seq<Entry>)
  {
    forall i, j :: 0 <= i < j < |run| && Boot(run[i].id) == Boot(run[j].id) ==> run[i].uptime < run[j].uptime
  }

  lemma StrictNeverSkips(run: seq<Entry>, boot: nat, lo: nat, hi: nat, first: nat)
    requires StrictUptimes(run)
    ensures !Skips(run, boot, lo, hi, first)
  {
    forall m | 0 < m < IndexCount(|run|) ensures !SkipAt(run, boot, lo, first, m) {
      var i := STRIDE * m;
      assert 0 <= i - 1 < i < |run|;
    }
  }

  /** With a timer too coarse to tell 65 entries of a boot apart, the search skips the oldest ones. */
  lemma CoarseTimerSkips(run: seq<Entry>, boot: nat, lo: nat, hi: nat, first: nat)
    requires |run| > STRIDE && lo <= hi && first <= run[STRIDE - 1].id
    requires forall i :: 0 <= i < |run| ==> Boot(run[i].id) == boot && run[i].uptime == lo
    ensures Skips(run, boot, lo, hi, first)
  {
    assert SkipAt(run, boot, lo, first, 1);
  }

  // ---------- Across segments ----------

  /** The run that holds the first match is one where the search by uptime starts past a match. */
  ghost predicate SkipsFirst(runs: seq<seq<Entry>>, boot: nat, lo: nat, hi: nat, first: nat)
  {
    exists k :: 0 <= k < |runs| && SkipsIn(runs, k, boot, lo, hi, first)
  }

  ghost predicate SkipsIn(runs: seq<seq<Entry>>, k: nat, boot: nat, lo: nat, hi: nat, first: nat)
    requires k < |runs|
  {
    Skips(runs[k], boot, lo, hi, first) && forall j :: 0 <= j < k ==> NoneIn(runs[j], InBoot(boot, lo, hi, first))
  }

  /** What searching one run yields: an answer from some tail of it that leaves out a match
      only when the search skips. */
  ghost predicate Partial(run: seq<Entry>, want: Entry -> bool, room: nat, r: Read, skips: bool)
  {
    exists from :: 0 <= from <= |run| && TailOf(run, from, want, room, r, skips)
  }

  ghost predicate TailOf(run: seq<Entry>, from: nat, want: Entry -> bool, room: nat, r: Read, skips: bool)
    requires from <= |run|
  {
    Answers(run[from..], want, room, r) && (NoneIn(run[..from], want) <==> !skips)
  }

  /** One run is searched right exactly when the search does not skip; either way a result is a match of that run. */
  lemma PartialExact(run: seq<Entry>, want: Entry -> bool, room: nat, r: Read, skips: bool)
    requires Increasing(run) && Partial(run, want, room, r, skips)
    ensures Answers(run, want, room, r) <==> !skips
    ensures !r.Failed? &&
            (Hit(r).Some? ==> Hit(r).value in run && want(Hit(r).value) && r == Deliver(Hit(r).value, room))
    ensures skips ==> !IsFirst(run, want, Hit(r)) && exists x :: x in run && want(x)
  {
    var from :| 0 <= from <= |run| && TailOf(run, from, want, room, r, skips);
    TailAnswers(run, from, want, room, r);
    if Hit(r).Some? {
      assert run == run[..from] + run[from..];
    }
    if skips {
      var x :| x in run[..from] && want(x);
      assert x in run;
    }
  }

  /** No match lies below this ID. */
  ghost predicate Cleared(runs: seq<seq<Entry>>, want: Entry -> bool, first: nat)
  {
    forall x :: x in Flat(runs) && x.id < first ==> !want(x)
  }

  /** The runs still to be searched are wanted whole, or from the very first ID. */
  ghost predicate Aligned(runs: seq<seq<Entry>>, first0: nat, first: nat, last: nat)
  {
    forall k, x :: 0 <= k < |runs| && Overlaps(runs[k], first, last, false) && x in runs[k] && first0 <= x.id ==>
      first <= x.id
  }

  /** Where a read of one boot begins: at its first ID, or where it is resumed. */
  function FirstWanted(boot: nat, next: nat): nat { if next == 0 then MakeId(boot, 1) else next }

  function BootLast(boot: nat): nat { MakeId(boot, SEQUENCE_MASK) }

  lemma BootBounds(id: nat, boot: nat)
    ensures Boot(id) == boot <==> MakeId(boot, 0) <= id <= BootLast(boot)
  {
  }

  /** Runs before the selected one hold no match at all. */
  lemma EarlierRunsClear(runs: seq<seq<Entry>>, k: nat, boot: nat, lo: nat, hi: nat, first0: nat, first: nat)
    requires Sorted(runs) && k < |runs| && Cleared(runs, InBoot(boot, lo, hi, first0), first)
    requires forall j :: 0 <= j < k ==> !Overlaps(runs[j], first, BootLast(boot), false)
    ensures forall j :: 0 <= j < k ==> NoneIn(runs[j], InBoot(boot, lo, hi, first0))
  {
    forall j, x | 0 <= j < k && x in runs[j] ensures !InBoot(boot, lo, hi, first0)(x) {
      FlatMember(runs, x);
      RunBounds(runs[j], x);
      BootBounds(x.id, boot);
    }
  }

  lemma SkipsFurther(run: seq<Entry>, boot: nat, lo: nat, hi: nat, first0: nat, first: nat)
    requires first0 <= first && Skips(run, boot, lo, hi, first)
    ensures Skips(run, boot, lo, hi, first0)
  {
    var m :| 0 < m < IndexCount(|run|) && SkipAt(run, boot, lo, first, m);
    assert SkipAt(run, boot, lo, first0, m);
  }

  lemma SkipsNearer(run: seq<Entry>, boot: nat, lo: nat, hi: nat, first0: nat, first: nat)
    requires (forall x :: x in run && first0 <= x.id ==> first <= x.id) && Skips(run, boot, lo, hi, first0)
    ensures Skips(run, boot, lo, hi, first)
  {
    var m :| 0 < m < IndexCount(|run|) && SkipAt(run, boot, lo, first0, m);
    assert SkipAt(run, boot, lo, first, m);
  }

  lemma SameWants(run: seq<Entry>, boot: nat, lo: nat, hi: nat, first0: nat, first: nat, room: nat, r: Read)
    requires first0 <= first && forall x :: x in run && first0 <= x.id ==> first <= x.id
    ensures Answers(run, InBoot(boot, lo, hi, first), room, r) <==> Answers(run, InBoot(boot, lo, hi, first0), room, r)
  {
    assert forall x :: x in run ==> (InBoot(boot, lo, hi, first)(x) <==> InBoot(boot, lo, hi, first0)(x));
  }

  /** A result found in the selected run answers the whole list, unless the search skipped
      in the run of the first match. */
  lemma BootHit(runs: seq<seq<Entry>>, k: nat, boot: nat, lo: nat, hi: nat, first0: nat, first: nat, room: nat, r: Read,
                byUptime: bool)
    requires Sorted(runs) && k < |runs| && first0 <= first && Cleared(runs, InBoot(boot, lo, hi, first0), first)
    requires Aligned(runs, first0, first, BootLast(boot)) && Overlaps(runs[k], first, BootLast(boot), false)
    requires forall j :: 0 <= j < k ==> !Overlaps(runs[j], first, BootLast(boot), false)
    requires Partial(runs[k], InBoot(boot, lo, hi, first), room, r, byUptime && Skips(runs[k], boot, lo, hi, first))
    requires Hit(r).Some? && !(byUptime && SkipsFirst(runs, boot, lo, hi, first0))
    ensures Answers(Flat(runs), InBoot(boot, lo, hi, first0), room, r)
  {
    EarlierRunsClear(runs, k, boot, lo, hi, first0, first);
    if byUptime && Skips(runs[k], boot, lo, hi, first) {
      SkipsFurther(runs[k], boot, lo, hi, first0, first);
      assert SkipsIn(runs, k, boot, lo, hi, first0);
    }
    PartialExact(runs[k], InBoot(boot, lo, hi, first), room, r, byUptime && Skips(runs[k], boot, lo, hi, first));
    SameWants(runs[k], boot, lo, hi, first0, first, room, r);
    RunDecides(runs, k, InBoot(boot, lo, hi, first0), room, r);
  }

  /** A run without a match is passed whole. */
  lemma BootMiss(runs: seq<seq<Entry>>, k: nat, boot: nat, lo: nat, hi: nat, first0: nat, first: nat, room: nat,
                 byUptime: bool)
    requires Sorted(runs) && k < |runs| && first0 <= first && Cleared(runs, InBoot(boot, lo, hi, first0), first)
    requires Aligned(runs, first0, first, BootLast(boot)) && Overlaps(runs[k], first, BootLast(boot), false)
    requires forall j :: 0 <= j < k ==> !Overlaps(runs[j], first, BootLast(boot), false)
    requires Partial(runs[k], InBoot(boot, lo, hi, first), room, NotFound,
                     byUptime && Skips(runs[k], boot, lo, hi, first))
    requires !(byUptime && SkipsFirst(runs, boot, lo, hi, first0))
    ensures Cleared(runs, InBoot(boot, lo, hi, first0), LastId(runs[k]) + 1)
  {
    EarlierRunsClear(runs, k, boot, lo, hi, first0, first);
    if byUptime && Skips(runs[k], boot, lo, hi, first) {
      SkipsFurther(runs[k], boot, lo, hi, first0, first);
      assert SkipsIn(runs, k, boot, lo, hi, first0);
    }
    PartialExact(runs[k], InBoot(boot, lo, hi, first), room, NotFound, byUptime && Skips(runs[k], boot, lo, hi, first));
    SameWants(runs[k], boot, lo, hi, first0, first, room, NotFound);
    PassRun(runs, k, InBoot(boot, lo, hi, first0));
  }

  lemma PassRun(runs: seq<seq<Entry>>, k: nat, want: Entry -> bool)
    requires Sorted(runs) && k < |runs| && runs[k] != [] && forall j :: 0 <= j <= k ==> NoneIn(runs[j], want)
    ensures Cleared(runs, want, LastId(runs[k]) + 1)
  {
    var newest := runs[k][|runs[k]| - 1];
    forall x | x in Flat(runs) && want(x) ensures newest.id < x.id {
      FlatMember(runs, x);
      var j :| 0 <= j < |runs| && x in runs[j];
      assert !NoneIn(runs[j], want);
      RunsApart(runs, k, j, newest, x);
    }
  }

  lemma StaysAligned(runs: seq<seq<Entry>>, k: nat, first0: nat, last: nat)
    requires Sorted(runs) && k < |runs| && runs[k] != []
    ensures Aligned(runs, first0, LastId(runs[k]) + 1, last)
  {
    var newest := runs[k][|runs[k]| - 1];
    forall j | 0 <= j < k ensures !Overlaps(runs[j], newest.id + 1, last, false) {
      if runs[j] != [] {
        RunsApart(runs, j, k, runs[j][|runs[j]| - 1], newest);
      }
    }
    forall j, x | 0 <= j < |runs| && Overlaps(runs[j], newest.id + 1, last, false) && x in runs[j]
      ensures newest.id < x.id
    {
      if j > k {
        RunsApart(runs, k, j, newest, x);
      }
    }
  }

  lemma NothingLeft(runs: seq<seq<Entry>>, boot: nat, lo: nat, hi: nat, first0: nat, first: nat)
    requires Sorted(runs) && Cleared(runs, InBoot(boot, lo, hi, first0), first)
    requires forall k :: 0 <= k < |runs| ==> !Overlaps(runs[k], first, BootLast(boot), false)
    ensures IsFirst(Flat(runs), InBoot(boot, lo, hi, first0), None)
  {
    forall x | x in Flat(runs) ensures !InBoot(boot, lo, hi, first0)(x) {
      FlatMember(runs, x);
      var k :| 0 <= k < |runs| && x in runs[k];
      RunBounds(runs[k], x);
      BootBounds(x.id, boot);
    }
  }

  lemma FirstSkipped(runs: seq<seq<Entry>>, boot: nat, lo: nat, hi: nat, first0: nat) returns (k: nat, x: Entry)
    requires SkipsFirst(runs, boot, lo, hi, first0)
    ensures k < |runs| && SkipsIn(runs, k, boot, lo, hi, first0)
    ensures x in runs[k] && InBoot(boot, lo, hi, first0)(x) && x in Flat(runs)
  {
    k :| 0 <= k < |runs| && SkipsIn(runs, k, boot, lo, hi, first0);
    var m :| 0 < m < IndexCount(|runs[k]|) && SkipAt(runs[k], boot, lo, first0, m);
    x := runs[k][STRIDE * m - 1];
    assert x in runs[k];
    FlatMember(runs, x);
  }

  /** When the search skips in the run of the first match, whatever it then finds is not the first match. */
  lemma SkipSpoils(runs: seq<seq<Entry>>, k: nat, boot: nat, lo: nat, hi: nat, first0: nat, first: nat, room: nat,
                   r: Read)
    requires Sorted(runs) && k < |runs| && first0 <= first
    requires Aligned(runs, first0, first, BootLast(boot)) && Overlaps(runs[k], first, BootLast(boot), false)
    requires Partial(runs[k], InBoot(boot, lo, hi, first), room, r, Skips(runs[k], boot, lo, hi, first))
    requires Hit(r).Some? && SkipsFirst(runs, boot, lo, hi, first0)
    ensures !IsFirst(Flat(runs), InBoot(boot, lo, hi, first0), Hit(r))
  {
    hide Flat, Ordered, Increasing, Partial, Skips, NoneIn;
    var j, x := FirstSkipped(runs, boot, lo, hi, first0);
    PartialExact(runs[k], InBoot(boot, lo, hi, first), room, r, Skips(runs[k], boot, lo, hi, first));
    var e := Hit(r).value;
    if j < k {
      RunsApart(runs, j, k, x, e);
    } else {
      assert j <= k by {
        assert InBoot(boot, lo, hi, first0)(e);
        NotNone(runs[k], InBoot(boot, lo, hi, first0), e);
      }
      SkipSpoilsRun(runs, k, boot, lo, hi, first0, first, e);
    }
  }

  lemma NotNone(run: seq<Entry>, want: Entry -> bool, e: Entry)
    requires e in run && want(e)
    ensures !NoneIn(run, want)
  {
  }

  lemma SkipSpoilsRun(runs: seq<seq<Entry>>, k: nat, boot: nat, lo: nat, hi: nat, first0: nat, first: nat, e: Entry)
    requires k < |runs| && first0 <= first && Skips(runs[k], boot, lo, hi, first0)
    requires forall x :: x in runs[k] && first0 <= x.id ==> first <= x.id
    requires e in runs[k] && InBoot(boot, lo, hi, first)(e)
    requires Skips(runs[k], boot, lo, hi, first) ==> !IsFirst(runs[k], InBoot(boot, lo, hi, first), Some(e))
    ensures !IsFirst(Flat(runs), InBoot(boot, lo, hi, first0), Some(e))
  {
    SkipsNearer(runs[k], boot, lo, hi, first0, first);
    var y :| y in runs[k] && InBoot(boot, lo, hi, first)(y) && y.id < e.id;
    FlatMember(runs, y);
    assert InBoot(boot, lo, hi, first0)(y);
  }

  lemma SkipSpoilsMiss(runs: seq<seq<Entry>>, boot: nat, lo: nat, hi: nat, first0: nat)
    requires SkipsFirst(runs, boot, lo, hi, first0)
    ensures !IsFirst(Flat(runs), InBoot(boot, lo, hi, first0), None)
  {
    var j, x := FirstSkipped(runs, boot, lo, hi, first0);
  }

  // ---------- Searching segment after segment ----------

  /** Where the search through the segments has got to: everything below `first` is done with. */
  ghost predicate Pending(runs: seq<seq<Entry>>, boot: nat, lo: nat, hi: nat, first0: nat, first: nat, byUptime: bool)
  {
    && first0 <= first
    && Aligned(runs, first0, first, BootLast(boot))
    && (!(byUptime && SkipsFirst(runs, boot, lo, hi, first0)) ==> Cleared(runs, InBoot(boot, lo, hi, first0), first))
  }

  /** The result answers the lookup exactly when the search by uptime did not skip in the run of the first match. */
  ghost predicate Exact(runs: seq<seq<Entry>>, boot: nat, lo: nat, hi: nat, first0: nat, byUptime: bool, room: nat,
                        r: Read)
  {
    && !r.Failed? && (Hit(r).Some? ==> Hit(r).value in Flat(runs) && r == Deliver(Hit(r).value, room))
    && (Answers(Flat(runs), InBoot(boot, lo, hi, first0), room, r) <==>
        !(byUptime && SkipsFirst(runs, boot, lo, hi, first0)))
  }

  /** Run k is the oldest one that meets the IDs still to be searched. */
  ghost predicate Selected(runs: seq<seq<Entry>>, k: nat, first: nat, last: nat)
  {
    k < |runs| && Overlaps(runs[k], first, last, false) && forall j :: 0 <= j < k ==>
      !Overlaps(runs[j], first, last, false)
  }

  lemma PendingStart(runs: seq<seq<Entry>>, boot: nat, lo: nat, hi: nat, first: nat, byUptime: bool)
    ensures Pending(runs, boot, lo, hi, first, first, byUptime)
  {
  }

  lemma PendingMiss(runs: seq<seq<Entry>>, k: nat, boot: nat, lo: nat, hi: nat, first0: nat, first: nat, byUptime: bool,
                    room: nat)
    requires Sorted(runs) && Pending(runs, boot, lo, hi, first0, first, byUptime) &&
             Selected(runs, k, first, BootLast(boot))
    requires Partial(runs[k], InBoot(boot, lo, hi, first), room, NotFound,
                     byUptime && Skips(runs[k], boot, lo, hi, first))
    ensures Pending(runs, boot, lo, hi, first0, LastId(runs[k]) + 1, byUptime)
  {
    hide Sorted, Flat, Cleared, SkipsFirst, Skips, Partial;
    StaysAligned(runs, k, first0, BootLast(boot));
    if !(byUptime && SkipsFirst(runs, boot, lo, hi, first0)) {
      BootMiss(runs, k, boot, lo, hi, first0, first, room, byUptime);
    }
  }

  lemma PendingHit(runs: seq<seq<Entry>>, k: nat, boot: nat, lo: nat, hi: nat, first0: nat, first: nat, byUptime: bool,
                   room: nat, r: Read)
    requires Sorted(runs) && Pending(runs, boot, lo, hi, first0, first, byUptime) &&
             Selected(runs, k, first, BootLast(boot))
    requires Partial(runs[k], InBoot(boot, lo, hi, first), room, r, byUptime && Skips(runs[k], boot, lo, hi, first))
    requires Hit(r).Some?
    ensures Exact(runs, boot, lo, hi, first0, byUptime, room, r)
  {
    PartialExact(runs[k], InBoot(boot, lo, hi, first), room, r, byUptime && Skips(runs[k], boot, lo, hi, first));
    FlatMember(runs, Hit(r).value);
    hide Sorted, Flat, Cleared, SkipsFirst, Skips, Partial, Aligned, IsFirst;
    if byUptime && SkipsFirst(runs, boot, lo, hi, first0) {
      SkipSpoils(runs, k, boot, lo, hi, first0, first, room, r);
    } else {
      BootHit(runs, k, boot, lo, hi, first0, first, room, r, byUptime);
    }
  }

  lemma PendingDone(runs: seq<seq<Entry>>, boot: nat, lo: nat, hi: nat, first0: nat, first: nat, byUptime: bool,
                    room: nat)
    requires Sorted(runs) && Pending(runs, boot, lo, hi, first0, first, byUptime)
    requires first > BootLast(boot) || forall k :: 0 <= k < |runs| ==> !Overlaps(runs[k], first, BootLast(boot), false)
    ensures Exact(runs, boot, lo, hi, first0, byUptime, room, NotFound)
  {
    hide Sorted, Flat, SkipsFirst, Skips, Aligned;
    if byUptime && SkipsFirst(runs, boot, lo, hi, first0) {
      SkipSpoilsMiss(runs, boot, lo, hi, first0);
    } else if first > BootLast(boot) {
      forall x | x in Flat(runs) ensures !InBoot(boot, lo, hi, first0)(x) {
        BootBounds(x.id, boot);
      }
    } else {
      NothingLeft(runs, boot, lo, hi, first0, first);
    }
  }
}
