/** A whole sync run: the directories of the profile one after the other into one destination. */
module SyncRun {
  import opened BackupName
  import opened Store
  import opened Expurge
  import opened SftpSync

  ghost function SyncEach(entries: map<string, Entry>, dirs: seq<SyncDir>, keep: int): Outcome
    decreases |dirs|
  {
    if dirs == [] then Outcome(entries, true)
    else
      var one := SyncOutcome(entries, dirs[0], keep);
      if !one.ok then one else SyncEach(one.entries, dirs[1..], keep)
  }

  /** `setupFails` covers the destination check and the ssh and sftp connections before the loop;
      `closeFails` is an error from closing the sftp client, which only spoils the result. */
  method RunSyncProfile(dir: Directory, dirs: seq<SyncDir>, keep: int, setupFails: bool, closeFails: bool)
    returns (ok: bool)
    modifies dir
    ensures setupFails ==> !ok && dir.entries == old(dir.entries)
    ensures !setupFails ==> dir.entries == SyncEach(old(dir.entries), dirs, keep).entries
    ensures !setupFails ==> ok == (SyncEach(old(dir.entries), dirs, keep).ok && !closeFails)
  {
    if setupFails {
      return false;
    }
    ghost var before := dir.entries;
    for i := 0 to |dirs|
      invariant SyncEach(before, dirs, keep) == SyncEach(dir.entries, dirs[i..], keep)
    {
      var d := dirs[i];
      assert dirs[i..][1..] == dirs[i + 1..];
      ok := SyncRemoteBackups(dir, d.localFails, d.remote, d.name);
      if !ok {
        return false;
      }
      if keep > 0 {
        ok := ExpurgeDir(dir, keep, d.name, d.expurge);
        if !ok {
          return false;
        }
      }
    }
    ok := !closeFails;
  }

  // ---------- how a run goes through its list ----------

  /** The directory before the sync of each listed directory, and after the last, if every one of them
      were synced. */
  ghost predicate Trace(states: seq<map<string, Entry>>, dirs: seq<SyncDir>, keep: int) {
    && |states| == |dirs| + 1
    && forall i :: 0 <= i < |dirs| ==> states[i + 1] == SyncOutcome(states[i], dirs[i], keep).entries
  }

  ghost predicate SyncsUpTo(states: seq<map<string, Entry>>, dirs: seq<SyncDir>, keep: int, k: nat)
    requires Trace(states, dirs, keep) && k <= |dirs|
  {
    forall i :: 0 <= i < k ==> SyncOutcome(states[i], dirs[i], keep).ok
  }

  ghost predicate StopsAt(states: seq<map<string, Entry>>, dirs: seq<SyncDir>, keep: int, k: nat)
    requires Trace(states, dirs, keep) && k < |dirs|
  {
    SyncsUpTo(states, dirs, keep, k) && !SyncOutcome(states[k], dirs[k], keep).ok
  }

  /** A run syncs the directories in turn and stops at the first that fails: it succeeds exactly when all
      of them do, and leaves what the last one did, or else what the first failing one did. */
  lemma {:induction false} RunInTurn(states: seq<map<string, Entry>>, dirs: seq<SyncDir>, keep: int)
    requires Trace(states, dirs, keep)
    ensures var out := SyncEach(states[0], dirs, keep);
            && (out.ok <==> SyncsUpTo(states, dirs, keep, |dirs|))
            && (out.ok ==> out.entries == states[|dirs|])
            && forall k :: 0 <= k < |dirs| && StopsAt(states, dirs, keep, k) ==> out.entries == states[k + 1]
    decreases |dirs|
  {
    if dirs != [] && SyncOutcome(states[0], dirs[0], keep).ok {
      var later, rest := states[1..], dirs[1..];
      TraceTail(states, dirs, keep);
      RunInTurn(later, rest, keep);
      UpToTail(states, dirs, keep, |dirs|);
      forall k | 0 <= k < |dirs| && StopsAt(states, dirs, keep, k)
        ensures SyncEach(states[0], dirs, keep).entries == states[k + 1]
      {
        assert k > 0;
        UpToTail(states, dirs, keep, k);
        assert StopsAt(later, rest, keep, k - 1) && later[k] == states[k + 1];
      }
    }
  }

  lemma TraceTail(states: seq<map<string, Entry>>, dirs: seq<SyncDir>, keep: int)
    requires Trace(states, dirs, keep) && dirs != []
    ensures Trace(states[1..], dirs[1..], keep)
    ensures states[1] == SyncOutcome(states[0], dirs[0], keep).entries
  {
    forall i | 0 <= i < |dirs| - 1
      ensures states[1..][i + 1] == SyncOutcome(states[1..][i], dirs[1..][i], keep).entries
    {
      assert states[1..][i] == states[i + 1] && dirs[1..][i] == dirs[i + 1];
    }
  }

  lemma UpToTail(states: seq<map<string, Entry>>, dirs: seq<SyncDir>, keep: int, k: nat)
    requires Trace(states, dirs, keep) && 1 <= k <= |dirs| && Trace(states[1..], dirs[1..], keep)
    requires SyncOutcome(states[0], dirs[0], keep).ok
    ensures SyncsUpTo(states, dirs, keep, k) <==> SyncsUpTo(states[1..], dirs[1..], keep, k - 1)
  {
    if SyncsUpTo(states[1..], dirs[1..], keep, k - 1) {
      forall i | 0 <= i < k
        ensures SyncOutcome(states[i], dirs[i], keep).ok
      {
        if i > 0 {
          assert SyncOutcome(states[1..][i - 1], dirs[1..][i - 1], keep).ok;
        }
      }
    }
  }

  /** No local subdirectory bears the name of a remote backup of any listed directory. */
  ghost predicate Unblocked(entries: map<string, Entry>, dirs: seq<SyncDir>) {
    forall i, f :: 0 <= i < |dirs| && f in Pullable(dirs[i].remote, dirs[i].name) && f in entries ==> entries[f].File?
  }

  lemma StaysUnblocked(entries: map<string, Entry>, d: SyncDir, keep: int, f: string)
    requires Listed(d.remote) && f in SyncOutcome(entries, d, keep).entries
    requires f in entries ==> entries[f].File?
    ensures SyncOutcome(entries, d, keep).entries[f].File?
  {
    SyncNeverLoses(entries, d, keep, Backups(entries, d.name) + Pullable(d.remote, d.name));
    if Matches(d.name, f) {
      SyncContents(entries, d, keep, f);
    }
  }

  /** When nothing fails and no subdirectory is in the way, the whole run succeeds. */
  lemma {:induction false} CleanRunSucceeds(entries: map<string, Entry>, dirs: seq<SyncDir>, keep: int)
    requires AllListed(dirs) && Unblocked(entries, dirs)
    requires forall i :: 0 <= i < |dirs| ==> NothingFails(dirs[i])
    ensures SyncEach(entries, dirs, keep).ok
    decreases |dirs|
  {
    if dirs != [] {
      var d, rest := dirs[0], dirs[1..];
      SyncSucceeds(entries, d, keep);
      var next := SyncOutcome(entries, d, keep).entries;
      forall i, f | 0 <= i < |rest| && f in Pullable(rest[i].remote, rest[i].name) && f in next
        ensures next[f].File?
      {
        assert rest[i] == dirs[i + 1];
        StaysUnblocked(entries, d, keep, f);
      }
      CleanRunSucceeds(next, rest, keep);
    }
  }

  // ---------- what a whole run leaves ----------

  ghost predicate AllListed(dirs: seq<SyncDir>) {
    forall i :: 0 <= i < |dirs| ==> Listed(dirs[i].remote)
  }

  ghost predicate Named(dirs: seq<SyncDir>, name: ProfileName) {
    exists i :: 0 <= i < |dirs| && dirs[i].name == name
  }

  /** What a directory of the list is synced from. */
  datatype Target = Target(name: ProfileName, entries: map<string, Entry>)

  ghost function TargetOf(d: SyncDir): Target {
    Target(d.name, d.remote.entries)
  }

  ghost function Held(t: Target): map<string, Entry> {
    map f | f in t.entries && t.entries[f].File? && Matches(t.name, f) :: t.entries[f]
  }

  ghost function RemoteBackups(d: SyncDir): map<string, Entry> {
    Held(TargetOf(d))
  }

  /** The remote backups of one name over the whole list. A name may be listed several times; where
      two of its directories hold the same file, the first one listed counts. */
  ghost function Offers(dirs: seq<SyncDir>, name: ProfileName): map<string, Entry> {
    if dirs == [] then map[]
    else if dirs[0].name == name then Offers(dirs[1..], name) + RemoteBackups(dirs[0])
    else Offers(dirs[1..], name)
  }

  /** Of one profile, `out` holds at least what retention keeps of `entries` and `offers` together, and
      nothing else than those. What it must keep is as in `entries`, or else as offered. */
  ghost predicate Settled(entries: map<string, Entry>, out: map<string, Entry>, name: ProfileName,
                          offers: map<string, Entry>, keep: int)
  {
    var all := Backups(entries, name) + offers.Keys;
    && Retained(keep, all) <= Backups(out, name) <= all
    && Holds(out, Retained(keep, all), entries, offers)
  }

  ghost predicate Holds(out: map<string, Entry>, kept: set<string>, entries: map<string, Entry>,
                        offers: map<string, Entry>)
  {
    forall f :: f in kept ==>
      f in out && if f in entries then out[f] == entries[f] else f in offers && out[f] == offers[f]
  }

  ghost predicate Exact(entries: map<string, Entry>, out: map<string, Entry>, name: ProfileName,
                        offers: map<string, Entry>, keep: int)
  {
    Backups(out, name) == Retained(keep, Backups(entries, name) + offers.Keys)
  }

  /** Two states agree on one file name. */
  ghost predicate SameAt(a: map<string, Entry>, b: map<string, Entry>, f: string) {
    (f in a <==> f in b) && (f in a && f in b ==> a[f] == b[f])
  }

  ghost predicate SameOf(a: map<string, Entry>, b: map<string, Entry>, name: ProfileName) {
    forall f :: Matches(name, f) ==> SameAt(a, b, f)
  }

  lemma SameBackups(a: map<string, Entry>, b: map<string, Entry>, name: ProfileName)
    requires SameOf(a, b, name)
    ensures Backups(a, name) == Backups(b, name)
    ensures forall f :: f in Backups(a, name) ==> a[f] == b[f]
  {
  }

  /** Only files of the profile's names change, in any outcome. */
  lemma {:induction false} SyncTouchesOnly(entries: map<string, Entry>, dirs: seq<SyncDir>, keep: int, f: string)
    requires AllListed(dirs) && forall i :: 0 <= i < |dirs| ==> !Matches(dirs[i].name, f)
    ensures SameAt(entries, SyncEach(entries, dirs, keep).entries, f)
    decreases |dirs|
  {
    if dirs != [] {
      var d := dirs[0];
      SyncNeverLoses(entries, d, keep, Backups(entries, d.name) + Pullable(d.remote, d.name));
      SyncTouchesOnly(SyncOutcome(entries, d, keep).entries, dirs[1..], keep, f);
    }
  }

  /** A run leaves the files of every name that is not listed alone. */
  lemma OtherNameStays(entries: map<string, Entry>, dirs: seq<SyncDir>, keep: int, name: ProfileName)
    requires AllListed(dirs) && !Named(dirs, name)
    ensures SameOf(entries, SyncEach(entries, dirs, keep).entries, name)
  {
    forall f | Matches(name, f)
      ensures SameAt(entries, SyncEach(entries, dirs, keep).entries, f)
    {
      forall i | 0 <= i < |dirs|
        ensures !Matches(dirs[i].name, f)
      {
        if Matches(dirs[i].name, f) {
          OneProfilePerFile(name, dirs[i].name, f);
        }
      }
      SyncTouchesOnly(entries, dirs, keep, f);
    }
  }

  lemma OneSettles(entries: map<string, Entry>, d: SyncDir, keep: int)
    requires Listed(d.remote) && SyncOutcome(entries, d, keep).ok
    ensures Settled(entries, SyncOutcome(entries, d, keep).entries, d.name, RemoteBackups(d), keep)
    ensures SeesAll(d.expurge) ==>
              Exact(entries, SyncOutcome(entries, d, keep).entries, d.name, RemoteBackups(d), keep)
  {
    SyncSuccess(entries, d, keep);
    assert RemoteBackups(d).Keys == Pullable(d.remote, d.name);
    SyncLeaves(entries, d, keep);
    SyncLeavesExactly(entries, d, keep);
  }

  lemma SettledThenSame(entries: map<string, Entry>, mid: map<string, Entry>, out: map<string, Entry>,
                        name: ProfileName, offers: map<string, Entry>, keep: int)
    requires Settled(entries, mid, name, offers, keep) && SameOf(mid, out, name)
    ensures Settled(entries, out, name, offers, keep)
    ensures Exact(entries, mid, name, offers, keep) ==> Exact(entries, out, name, offers, keep)
  {
    SameBackups(mid, out, name);
  }

  lemma SameThenSettled(entries: map<string, Entry>, mid: map<string, Entry>, out: map<string, Entry>,
                        name: ProfileName, offers: map<string, Entry>, keep: int)
    requires SameOf(entries, mid, name) && Settled(mid, out, name, offers, keep)
    ensures Settled(entries, out, name, offers, keep)
    ensures Exact(mid, out, name, offers, keep) ==> Exact(entries, out, name, offers, keep)
  {
    SameBackups(entries, mid, name);
  }

  lemma BoundsTwice(keep: int, local: set<string>, first: set<string>, mid: set<string>, more: set<string>,
                    out: set<string>)
    requires Retained(keep, local + first) <= mid <= local + first
    requires Retained(keep, mid + more) <= out <= mid + more
    ensures Retained(keep, local + (more + first)) == Retained(keep, mid + more)
    ensures out <= local + (more + first)
    ensures Retained(keep, mid + more) * (local + first) <= Retained(keep, local + first)
  {
    RetainedAgain(keep, local + first, mid, more);
    assert local + (more + first) == (local + first) + more;
  }

  lemma HoldsTwice(entries: map<string, Entry>, mid: map<string, Entry>, out: map<string, Entry>,
                   name: ProfileName, first: map<string, Entry>, more: map<string, Entry>,
                   early: set<string>, late: set<string>)
    requires Holds(mid, early, entries, first) && Holds(out, late, mid, more)
    requires late * (Backups(entries, name) + first.Keys) <= early
    requires Backups(mid, name) <= Backups(entries, name) + first.Keys && forall f :: f in late ==> Matches(name, f)
    ensures Holds(out, late, entries, more + first)
  {
    forall f | f in late
      ensures if f in entries then out[f] == entries[f] else f in more + first && out[f] == (more + first)[f]
    {
      assert f in entries ==> f in Backups(entries, name);
      assert f in mid ==> f in Backups(mid, name);
    }
  }

  /** Two syncs of one name are one sync of both remotes. */
  lemma SettledTwice(entries: map<string, Entry>, mid: map<string, Entry>, out: map<string, Entry>,
                     name: ProfileName, first: map<string, Entry>, more: map<string, Entry>, keep: int)
    requires Settled(entries, mid, name, first, keep) && Settled(mid, out, name, more, keep)
    ensures Settled(entries, out, name, more + first, keep)
    ensures Exact(mid, out, name, more, keep) ==> Exact(entries, out, name, more + first, keep)
  {
    var local, left := Backups(entries, name), Backups(mid, name);
    BoundsTwice(keep, local, first.Keys, left, more.Keys, Backups(out, name));
    assert (more + first).Keys == more.Keys + first.Keys;
    assert Holds(out, Retained(keep, left + more.Keys), entries, more + first) by {
      HoldsTwice(entries, mid, out, name, first, more,
                 Retained(keep, local + first.Keys), Retained(keep, left + more.Keys));
    }
  }

  /** The last directory listed under the name is one whose expurge sees all files. */
  ghost predicate LastSees(dirs: seq<SyncDir>, name: ProfileName) {
    dirs != [] ==>
      if dirs[0].name == name && !Named(dirs[1..], name) then SeesAll(dirs[0].expurge) else LastSees(dirs[1..], name)
  }

  /** The first directory of a successful run is synced, then the rest from what that leaves. */
  lemma FirstThenRest(entries: map<string, Entry>, dirs: seq<SyncDir>, keep: int)
    requires dirs != [] && AllListed(dirs) && SyncEach(entries, dirs, keep).ok
    ensures var mid := SyncOutcome(entries, dirs[0], keep).entries;
            && Listed(dirs[0].remote) && AllListed(dirs[1..]) && SyncOutcome(entries, dirs[0], keep).ok
            && SyncEach(mid, dirs[1..], keep) == SyncEach(entries, dirs, keep)
  {
  }

  lemma NamedLater(dirs: seq<SyncDir>, name: ProfileName)
    requires Named(dirs, name) && dirs[0].name != name
    ensures Named(dirs[1..], name)
  {
    var i :| 0 <= i < |dirs| && dirs[i].name == name;
    assert dirs[1..][i - 1].name == name;
  }

  /** After a successful run every listed name holds what retention keeps of the local backups and of
      all remote ones offered under that name, whatever else ran in between; and exactly that when the
      last expurge for the name saw all files. */
  lemma {:induction false} SyncSettles(entries: map<string, Entry>, dirs: seq<SyncDir>, keep: int, name: ProfileName)
    requires AllListed(dirs) && Named(dirs, name)
    requires SyncEach(entries, dirs, keep).ok
    ensures Settled(entries, SyncEach(entries, dirs, keep).entries, name, Offers(dirs, name), keep)
    ensures LastSees(dirs, name) ==>
              Exact(entries, SyncEach(entries, dirs, keep).entries, name, Offers(dirs, name), keep)
    decreases |dirs|
  {
    var d, rest := dirs[0], dirs[1..];
    var mid, out := SyncOutcome(entries, d, keep).entries, SyncEach(entries, dirs, keep).entries;
    FirstThenRest(entries, dirs, keep);
    if d.name != name {
      NamedLater(dirs, name);
      SyncSettles(mid, rest, keep, name);
      OneStays(entries, d, keep, name);
      SameThenSettled(entries, mid, out, name, Offers(rest, name), keep);
    } else if Named(rest, name) {
      SyncSettles(mid, rest, keep, name);
      OneSettles(entries, d, keep);
      SettledTwice(entries, mid, out, name, RemoteBackups(d), Offers(rest, name), keep);
    } else {
      OneSettles(entries, d, keep);
      OtherNameStays(mid, rest, keep, name);
      OnlyOffer(dirs);
      SettledThenSame(entries, mid, out, name, RemoteBackups(d), keep);
    }
  }

  lemma {:induction false} NoOffers(dirs: seq<SyncDir>, name: ProfileName)
    requires !Named(dirs, name)
    ensures Offers(dirs, name) == map[]
  {
    if dirs != [] {
      NoOffers(dirs[1..], name);
    }
  }

  lemma OnlyOffer(dirs: seq<SyncDir>)
    requires dirs != [] && !Named(dirs[1..], dirs[0].name)
    ensures Offers(dirs, dirs[0].name) == RemoteBackups(dirs[0])
  {
    NoOffers(dirs[1..], dirs[0].name);
  }

  lemma OneStays(entries: map<string, Entry>, d: SyncDir, keep: int, name: ProfileName)
    requires Listed(d.remote) && d.name != name
    ensures SameOf(entries, SyncOutcome(entries, d, keep).entries, name)
  {
    SyncNeverLoses(entries, d, keep, Backups(entries, d.name) + Pullable(d.remote, d.name));
    forall f | Matches(name, f)
      ensures !Matches(d.name, f)
    {
      if Matches(d.name, f) {
        OneProfilePerFile(name, d.name, f);
      }
    }
  }

  // ---------- the order of the list ----------

  ghost function TargetsOf(dirs: seq<SyncDir>): set<Target> {
    set d | d in dirs :: TargetOf(d)
  }

  /** Targets of one name agree on the backups they have in common. */
  ghost predicate Consistent(targets: set<Target>) {
    forall s, t :: s in targets && t in targets && s.name == t.name ==> Agree(Held(s), Held(t))
  }

  ghost predicate Agree(a: map<string, Entry>, b: map<string, Entry>) {
    forall f :: f in a && f in b ==> a[f] == b[f]
  }

  /** Which they do, in particular, when no name is listed twice. */
  lemma DistinctNamesAgree(dirs: seq<SyncDir>)
    requires forall i, j :: 0 <= i < j < |dirs| ==> dirs[i].name != dirs[j].name
    ensures Consistent(TargetsOf(dirs))
  {
  }

  /** Every offer is held by a target of the name. */
  lemma {:induction false} OfferFrom(dirs: seq<SyncDir>, name: ProfileName, f: string) returns (t: Target)
    requires f in Offers(dirs, name)
    ensures t in TargetsOf(dirs) && t.name == name
    ensures f in Held(t) && Offers(dirs, name)[f] == Held(t)[f]
  {
    var d := dirs[0];
    t := TargetOf(d);
    assert d in dirs;
    if d.name != name || f !in RemoteBackups(d) {
      t := OfferFrom(dirs[1..], name, f);
      TargetsOfRest(dirs, t);
    }
  }

  lemma TargetsOfRest(dirs: seq<SyncDir>, t: Target)
    requires dirs != [] && t in TargetsOf(dirs[1..])
    ensures t in TargetsOf(dirs)
  {
    var d :| d in dirs[1..] && t == TargetOf(d);
    assert d in dirs;
  }

  lemma {:induction false} HeldIsOffered(dirs: seq<SyncDir>, t: Target, f: string)
    requires t in TargetsOf(dirs) && f in Held(t)
    ensures f in Offers(dirs, t.name)
  {
    var d :| d in dirs && t == TargetOf(d);
    if d == dirs[0] {
      assert f in RemoteBackups(d);
    } else {
      assert d in dirs[1..];
      HeldIsOffered(dirs[1..], t, f);
    }
  }

  lemma OffersWithin(first: seq<SyncDir>, second: seq<SyncDir>, name: ProfileName, f: string)
    requires TargetsOf(first) == TargetsOf(second) && Consistent(TargetsOf(first))
    requires f in Offers(first, name)
    ensures f in Offers(second, name) && Offers(second, name)[f] == Offers(first, name)[f]
  {
    var t := OfferFrom(first, name, f);
    HeldIsOffered(second, t, f);
    var t' := OfferFrom(second, name, f);
    assert Agree(Held(t), Held(t'));
  }

  lemma SameOffers(first: seq<SyncDir>, second: seq<SyncDir>, name: ProfileName)
    requires TargetsOf(first) == TargetsOf(second) && Consistent(TargetsOf(first))
    ensures Offers(first, name) == Offers(second, name)
  {
    forall f | f in Offers(first, name)
      ensures f in Offers(second, name) && Offers(second, name)[f] == Offers(first, name)[f]
    {
      OffersWithin(first, second, name, f);
    }
    forall f | f in Offers(second, name)
      ensures f in Offers(first, name)
    {
      OffersWithin(second, first, name, f);
    }
  }

  lemma SettledAlike(entries: map<string, Entry>, a: map<string, Entry>, b: map<string, Entry>,
                     name: ProfileName, offers: map<string, Entry>, keep: int, f: string)
    requires Matches(name, f)
    requires Settled(entries, a, name, offers, keep) && Settled(entries, b, name, offers, keep)
    requires Exact(entries, a, name, offers, keep) && Exact(entries, b, name, offers, keep)
    ensures SameAt(a, b, f)
  {
    assert f in a <==> f in Backups(a, name);
    assert f in b <==> f in Backups(b, name);
  }

  ghost predicate AllSee(dirs: seq<SyncDir>) {
    forall i :: 0 <= i < |dirs| ==> SeesAll(dirs[i].expurge)
  }

  lemma {:induction false} AllSeeLast(dirs: seq<SyncDir>, name: ProfileName)
    requires AllSee(dirs)
    ensures LastSees(dirs, name)
  {
    if dirs != [] {
      AllSeeLast(dirs[1..], name);
    }
  }

  lemma NamedToo(first: seq<SyncDir>, second: seq<SyncDir>, name: ProfileName)
    requires TargetsOf(first) == TargetsOf(second) && Named(first, name)
    ensures Named(second, name)
  {
    var i :| 0 <= i < |first| && first[i].name == name;
    var t := TargetOf(first[i]);
    assert first[i] in first && t in TargetsOf(first);
    var d :| d in second && t == TargetOf(d);
    var j :| 0 <= j < |second| && second[j] == d;
  }

  lemma UnlistedStays(entries: map<string, Entry>, dirs: seq<SyncDir>, keep: int, f: string)
    requires AllListed(dirs) && forall name :: Named(dirs, name) ==> !Matches(name, f)
    ensures SameAt(entries, SyncEach(entries, dirs, keep).entries, f)
  {
    forall i | 0 <= i < |dirs|
      ensures !Matches(dirs[i].name, f)
    {
      assert Named(dirs, dirs[i].name);
    }
    SyncTouchesOnly(entries, dirs, keep, f);
  }

  lemma SameAtAnyOrder(entries: map<string, Entry>, first: seq<SyncDir>, second: seq<SyncDir>, keep: int, f: string)
    requires AllListed(first) && AllListed(second) && AllSee(first) && AllSee(second)
    requires TargetsOf(first) == TargetsOf(second) && Consistent(TargetsOf(first))
    requires SyncEach(entries, first, keep).ok && SyncEach(entries, second, keep).ok
    ensures SameAt(SyncEach(entries, first, keep).entries, SyncEach(entries, second, keep).entries, f)
  {
    if name: ProfileName :| Named(first, name) && Matches(name, f) {
      NamedToo(first, second, name);
      SyncSettles(entries, first, keep, name);
      SyncSettles(entries, second, keep, name);
      AllSeeLast(first, name);
      AllSeeLast(second, name);
      SameOffers(first, second, name);
      SettledAlike(entries, SyncEach(entries, first, keep).entries, SyncEach(entries, second, keep).entries,
                   name, Offers(first, name), keep, f);
    } else {
      forall name | Named(second, name)
        ensures !Matches(name, f)
      {
        NamedToo(second, first, name);
      }
      UnlistedStays(entries, first, keep, f);
      UnlistedStays(entries, second, keep, f);
    }
  }

  lemma SameEverywhere(a: map<string, Entry>, b: map<string, Entry>)
    requires forall f :: SameAt(a, b, f)
    ensures a == b
  {
    forall f
      ensures f in a.Keys <==> f in b.Keys
    {
      assert SameAt(a, b, f);
    }
    forall f | f in a
      ensures a[f] == b[f]
    {
      assert SameAt(a, b, f);
    }
  }

  /** The directories may be listed in any order and any number of times, as long as those under one
      name agree on the backups they share: successful runs whose expurges see all files end alike. */
  lemma SyncOrderIrrelevant(entries: map<string, Entry>, first: seq<SyncDir>, second: seq<SyncDir>, keep: int)
    requires AllListed(first) && AllListed(second) && AllSee(first) && AllSee(second)
    requires TargetsOf(first) == TargetsOf(second) && Consistent(TargetsOf(first))
    requires SyncEach(entries, first, keep).ok && SyncEach(entries, second, keep).ok
    ensures SyncEach(entries, first, keep).entries == SyncEach(entries, second, keep).entries
  {
    forall f
      ensures SameAt(SyncEach(entries, first, keep).entries, SyncEach(entries, second, keep).entries, f)
    {
      SameAtAnyOrder(entries, first, second, keep, f);
    }
    SameEverywhere(SyncEach(entries, first, keep).entries, SyncEach(entries, second, keep).entries);
  }
}
