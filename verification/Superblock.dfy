/** The superblock pair by itself, and the store as provisioning leaves it. */
module Superblock {
  import opened Layout
  import opened Device
  import opened Protocol
  import opened Recovery
  import opened Runs

  /** Commits numbered consecutively from the newest superblock on disk. */
  predicate Consecutive(d: Disk, commits: seq<Super>)
  {
    && LoadSuper(d).Some?
    && forall i :: 0 <= i < |commits| ==>
       commits[i].sgen == LoadSuper(d).value.sgen + 1 + i && SuperValid(commits[i], |d.files|)
  }

  /** Each commit goes to the copy its number selects. */
  function Committed(d: Disk, commits: seq<Super>): Disk
  {
    if commits == [] then d
    else
      var k := |commits| - 1;
      SetSuper(Committed(d, commits[..k]), commits[k].sgen % 2, Some(commits[k]))
  }

  ghost predicate PairOk(d: Disk)
  {
    Parity(d.sb0, |d.files|, 0) && Parity(d.sb1, |d.files|, 1)
  }

  /** After any number of commits, power loss during one more leaves a valid superblock, and loading it gives the last
      completed commit or the one in flight, never anything older. */
  lemma {:induction false} LastCommitSurvives(d: Disk, commits: seq<Super>, next: Super, c: Option<Super>)
    requires PairOk(d) && Consecutive(d, commits + [next])
    requires var before := Committed(d, commits);
      TornCopy(if next.sgen % 2 == 0 then before.sb0 else before.sb1, next, c)
    ensures var before := Committed(d, commits);
      && LoadSuper(before) == (if commits == [] then LoadSuper(d) else Some(commits[|commits| - 1]))
      && LoadSuper(SetSuper(before, next.sgen % 2, c)) == (if c == Some(next) then Some(next) else LoadSuper(before))
      && PairOk(before) && |before.files| == |d.files|
  {
    hide SuperValid, LoadSuper, PairOk;
    var before := Committed(d, commits);
    assert (commits + [next])[|commits|] == next;
    if commits != [] {
      var k := |commits| - 1;
      var prev := commits[..k];
      var s := commits[k];
      assert prev + [s] == commits;
      assert forall i :: 0 <= i < |commits| ==> (commits + [next])[i] == commits[i];
      LastCommitSurvives(d, prev, s, Some(s));
      assert (commits + [next])[k] == s;
      OneCommit(Committed(d, prev), s, Some(s));
    }
    OneCommit(before, next, c);
  }

  /** One commit, whatever becomes of it. */
  lemma OneCommit(d: Disk, s: Super, c: Option<Super>)
    requires PairOk(d) && LoadSuper(d).Some? && s.sgen == LoadSuper(d).value.sgen + 1 && SuperValid(s, |d.files|)
    requires TornCopy(if s.sgen % 2 == 0 then d.sb0 else d.sb1, s, c)
    ensures LoadSuper(SetSuper(d, s.sgen % 2, c)) == (if c == Some(s) then Some(s) else LoadSuper(d))
    ensures PairOk(SetSuper(d, s.sgen % 2, c))
  {
    hide SuperValid;
  }

  // ---------- The provisioned store ----------

  /** No record in this file carries the store's identity. */
  ghost predicate Foreign(file: SlotFile, store: nat)
  {
    && (forall o :: o in file.cells ==> file.cells[o].at.store != store)
    && (file.f0.Some? ==> file.f0.value.at.store != store)
    && (file.f1.Some? ==> file.f1.value.at.store != store)
  }

  /** Two synced superblocks, generation 1 active in slot 0, every other slot empty. Recycled clusters may hold anything
      that does not carry this store's identity. */
  ghost predicate Provisioned(d: Disk)
  {
    && GeometryOk(d.g) && |d.files| >= 2 && PairOk(d)
    && LoadSuper(d).Some?
    && (var s := LoadSuper(d).value; s.oldestGen == 1 && s.activeGen == 1 && s.nextGen == 2 && s.boot == 0)
    && forall i {:trigger d.files[i]} :: 0 <= i < |d.files| ==>
         && Foreign(d.files[i], d.store)
         && d.files[i].h0 == Some(Ident(d.store, i, if i == 0 then 1 else 0))
         && d.files[i].h1 == d.files[i].h0
  }

  function FirstState(d: Disk): P { P(Down, d, Log(1, 0, [[]]), [], 0, 0, []) }

  lemma ProvisionedHolds(d: Disk)
    requires Provisioned(d)
    ensures DiskInv(d, Log(1, 0, [[]]), 0, 0) && HeadersLoad(d)
  {
    var l := Log(1, 0, [[]]);
    forall i | 0 <= i < |d.files|
      ensures SlotOk(d.g, d.store, |d.files|, i, d.files[i], l) && LoadHeader(d.files[i], d.store, i).Some?
    {
      assert Foreign(d.files[i], d.store);
    }
  }

  /** Every run that starts from a provisioned store keeps the invariant and refines the abstract log. */
  lemma ProvisionedIsSafe(d: Disk)
    requires Provisioned(d)
    ensures Inv(FirstState(d)) && HeadersLoad(d)
  {
    hide DiskInv, HeadersLoad;
    ProvisionedHolds(d);
    var segs: seq<seq<Entry>> := [[]];
    assert Flat(segs) == [] by {
      assert segs[..0] == [];
    }
  }
}
