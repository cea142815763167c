/** What the public methods give together: a new device from provisioning to a valid anchor ring, everything it holds
    read back, and a timer too coarse for reading by uptime. */
module Walkthrough {
  import opened Layout
  import opened Device
  import opened Protocol
  import opened Recovery
  import opened Runs
  import opened Superblock
  import opened Memory
  import opened Restart
  import opened Lookup
  import opened ReadFacts
  import opened Searches
  import opened Catalog
  import opened Engine
  import opened Reader
  import opened Cursors
  import Anchors

  /** A provisioned device with an empty anchor ring starts, and its ring is valid. */
  method NewDevice(d: Disk, bufferSize: nat, slots: nat, resetReason: seq<byte>, now: U64)
    returns (ring: Anchors.AnchorRing)
    requires Provisioned(d) && slots > 0 && |resetReason| == 8
    ensures fresh(ring) && ring.Valid() && ring.slots == seq(slots, _ => None)
  {
    ProvisionedIsSafe(d);
    hide Inv, Anchors.RInv, ring.Valid, HeadersLoad, Provisioned;
    var store := new Store(d, bufferSize, Start(FirstState(d)));
    var table := new EpochTable(slots);
    Anchors.EmptyRingKeeps(store.p, slots);
    ring := new Anchors.AnchorRing(store, table, seq(slots, _ => None), {});
    var status := ring.Start(resetReason, now);
  }

  // ---------- Reading everything back ----------

  lemma {:induction false} FilterAll(es: seq<Entry>, want: Entry -> bool)
    requires forall x :: x in es ==> want(x)
    ensures Filter(es, want) == es
  {
    if es != [] {
      assert es[0] in es && es == [es[0]] + es[1..];
      FilterAll(es[1..], want);
    }
  }

  /** With nobody writing meanwhile, reading all IDs returns exactly what the store holds, buffered entries included. */
  method ReadEverything(source: Store, room: nat) returns (got: seq<Entry>)
    requires source.Valid() && AllFit(source.p, room)
    ensures got == Visible(source.p)
  {
    hide source.Valid, Inv, Visible, AllFit, Filter;
    StoreInv(source);
    StoreIdsFit(source);
    AtRest(source);
    var disk := source.disk;
    var reader := new SnapshotReader(disk.store, disk.g, (t: nat) => disk);
    var cursor := new EntryRangeCursor(0, U64_MAX);
    RestingDiskServes(source.p);
    FilterAll(Visible(source.p), cursor.Left());
    got := ReadAll(cursor, reader, source, room);
  }

  lemma AtRest(source: Store)
    requires source.Valid()
    ensures source.disk == source.p.d
  {
    hide Legal, Powered, Inv;
  }

  // ---------- A coarse timer ----------

  /** The newest segment holds the boot event and n entries that were all stamped `now`. */
  ghost predicate Stamped(p: P, n: nat, now: nat)
  {
    var run := LastSeg(Contents(p));
    && |Contents(p).segs| == 1 && |run| == n + 1 && End(run) == DATA_START + BOOT_EVENT_SIZE + n * MIN_ENTRY
    && forall i :: 0 < i <= n ==> Boot(run[i].id) == p.boot && run[i].uptime == now
  }

  lemma StampedFirst(p: P, q: P, e: Entry, now: nat)
    requires BootEvent(p, q, e) && BootLog(p) == Log(1, 0, [[]]) && Size(e) == BOOT_EVENT_SIZE
    ensures Stamped(q, 0, now)
  {
    AcceptRun([], e);
    EmptyEnd();
    assert [] + [e] == [e];
  }

  lemma StampedNext(p: P, q: P, n: nat, now: nat, e: Entry)
    requires Stamped(p, n, now) && Contents(q) == Extend(Contents(p), [e]) && e.payload == []
    requires Boot(e.id) == p.boot == q.boot && e.uptime == now
    ensures Stamped(q, n + 1, now)
  {
    AcceptRun(LastSeg(Contents(p)), e);
    assert LastSeg(Contents(q)) == LastSeg(Contents(p)) + [e];
    hide Contents, End;
  }

  lemma StampedSkips(p: P, now: nat)
    requires Inv(p) && p.l.segs != [] && Stamped(p, STRIDE, now)
    ensures SkipsFirst(View(p), p.boot, now, now, MakeId(p.boot, 1))
  {
    hide Inv, Visible, Flat;
    var run := LastSeg(Contents(p));
    assert View(p) == [run];
    ViewRuns(p);
    FlatMember(View(p), run[STRIDE - 1]);
    assert InSomeRun(View(p), run[STRIDE - 1]);
    VisibleSequenced(p, run[STRIDE - 1]);
    hide Inv, View, Contents, Visible;
    assert SkipAt(run, p.boot, now, MakeId(p.boot, 1), 1);
    assert SkipsIn(View(p), 0, p.boot, now, now, MakeId(p.boot, 1));
  }

  lemma StampedFits(p: P, n: nat, now: nat)
    requires Stamped(p, n, now) && n < STRIDE && GeometryOk(p.d.g)
    ensures Prepared(p, MIN_ENTRY) == Contents(p) && Turns(p, MIN_ENTRY) == 0
    ensures DATA_START + MIN_ENTRY <= p.d.g.dataEnd
  {
    hide Contents, End;
  }

  lemma FirstBoot(d: Disk, p: P, q: P, payload: seq<byte>, now: nat)
    requires Provisioned(d) && |payload| == 8 && p == FirstState(d) && SameLayout(d, q.d)
    requires exists e :: BootEvent(p, q, e) && e.payload == payload && e.uptime == now
    ensures Stamped(q, 0, now) && q.d.g == d.g
  {
    var e :| BootEvent(FirstState(d), q, e) && e.payload == payload;
    assert d.files[0] == d.files[0] && Foreign(d.files[0], d.store);
    EmptyEnd();
    StampedFirst(FirstState(d), q, e, now);
  }

  lemma NewStore(d: Disk, p: P)
    requires Provisioned(d) && p == FirstState(d)
    ensures Legal(Start(p)) && p.mode == Down && p.d == d && p.boot == 0 && HeadersLoad(d) && GeometryOk(d.g)
  {
    ProvisionedIsSafe(d);
  }

  method AppendStamped(store: Store, ghost n: nat, now: U64)
    requires store.Valid() && OnTime(store.p, now) && Stamped(store.p, n, now) && GeometryOk(store.p.d.g)
    requires store.state.sequence == n + 1 && n < STRIDE
    modifies store
    ensures store.Valid() && OnTime(store.p, now) && Stamped(store.p, n + 1, now) && GeometryOk(store.p.d.g)
    ensures store.state.sequence == n + 2 && store.p.boot == old(store.p).boot
  {
    hide store.Valid, Inv, Stamped, OnTime, Contents, Remains, Legal, Powered, Within, GeometryOk;
    ghost var before := store.p;
    AtRest(store);
    StampedFits(before, n, now);
    var status, e := store.AppendEntry(0, [], now, false);
    StampedNext(before, store.p, n, now, e.value);
  }

  method StampedBoot(d: Disk, bufferSize: nat, resetReason: seq<byte>, now: U64) returns (store: Store)
    requires Provisioned(d) && |resetReason| == 8
    ensures fresh(store) && store.Valid() && OnTime(store.p, now) && Stamped(store.p, 0, now) && GeometryOk(store.p.d.g)
    ensures store.state.sequence == 1 && store.p.boot == 1
  {
    hide store.Valid, Inv, HeadersLoad, Provisioned, Stamped, BootEvent, OnTime, Contents, Remains, Legal, Powered,
         Within, GeometryOk, FirstState;
    ghost var start := FirstState(d);
    NewStore(d, start);
    store := new Store(d, bufferSize, Start(start));
    var status := store.Init(resetReason, now);
    FirstBoot(d, start, store.p, resetReason, now);
  }

  /** A store whose clock shows the same time for its boot event and the next 64 entries:
      reading them by uptime skips. */
  method CoarseTimer(d: Disk, bufferSize: nat, resetReason: seq<byte>, now: U64)
    returns (store: Store, cursor: BootUptimeRangeCursor)
    requires Provisioned(d) && |resetReason| == 8
    ensures fresh(store) && store.Valid() && cursor.IsValid() && cursor.Skipping(store.p)
  {
    hide store.Valid, Inv, Provisioned, Stamped, OnTime, SkipsFirst, GeometryOk;
    store := StampedBoot(d, bufferSize, resetReason, now);
    for i := 0 to STRIDE
      invariant fresh(store) && store.Valid() && OnTime(store.p, now) && Stamped(store.p, i, now)
      invariant GeometryOk(store.p.d.g) && store.state.sequence == i + 1 && store.p.boot == 1
    {
      AppendStamped(store, i, now);
    }
    StoreInv(store);
    StampedSkips(store.p, now);
    Anchors.SourceBoot(store);
    cursor := new BootUptimeRangeCursor(store.state.boot, now, now);
  }
}
