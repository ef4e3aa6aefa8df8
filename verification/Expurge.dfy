/** `ExpurgeDir`: removing the surplus backups of one profile from a directory, one file at a
    time, oldest first, stopping at the first failure. */
module Expurge {
  import opened Text
  import opened BackupName
  import opened Retention
  import opened Store

  /** The entries of a directory that belong to a profile. */
  ghost function Backups(entries: map<string, Entry>, name: ProfileName): set<string> {
    set f | f in entries && Matches(name, f)
  }

  /** What retention leaves of a set of backups: everything when `keep` is not positive. */
  ghost function Retained(keep: int, files: set<string>): set<string> {
    if keep <= 0 then files else Newest(keep, files)
  }

  /** What the environment decides about an expurge: what `Stat` says of the directory, the names its
      listing leaves out without an error, and the removals that fail. */
  datatype ExpurgeFaults = ExpurgeFaults(stat: Stat, missed: string -> bool, removeFails: string -> bool)

  ghost function RemoveEach(entries: map<string, Entry>, todo: seq<string>, fails: string -> bool): Outcome {
    if todo == [] then Outcome(entries, true)
    else if todo[0] !in entries || fails(todo[0]) then Outcome(entries, false)
    else RemoveEach(entries - {todo[0]}, todo[1..], fails)
  }

  ghost function Seen(files: set<string>, missed: string -> bool): set<string> {
    set f | f in files && !missed(f)
  }

  /** The backups an expurge sets out to remove, in that order: the surplus of those it sees. */
  ghost function Doomed(entries: map<string, Entry>, name: ProfileName, keep: int, missed: string -> bool): seq<string>
  {
    Surplus(Seen(Backups(entries, name), missed), keep)
  }

  ghost function ExpurgeOutcome(entries: map<string, Entry>, keep: int, name: ProfileName, env: ExpurgeFaults): Outcome
  {
    if !env.stat.IsDirectory? then Outcome(entries, false)
    else if keep <= 0 then Outcome(entries, true)
    else if name == "" then Outcome(entries, false)
    else RemoveEach(entries, Doomed(entries, name, keep, env.missed), env.removeFails)
  }

  method ExpurgeDir(dir: Directory, keep: int, name: ProfileName, env: ExpurgeFaults) returns (ok: bool)
    modifies dir
    ensures Outcome(dir.entries, ok) == ExpurgeOutcome(old(dir.entries), keep, name, env)
  {
    if !env.stat.IsDirectory? {
      return false;
    }
    var names := dir.ListZips(env.missed);
    var r := FindToDelete(names, name, keep);
    if r.Err? {
      return false;
    }
    var todo := r.value;
    ListedSurplus(dir.entries, names, name, keep, env.missed);
    if |todo| == 0 {
      return true;
    }
    ghost var before := dir.entries;
    for i := 0 to |todo|
      invariant RemoveEach(before, todo, env.removeFails) == RemoveEach(dir.entries, todo[i..], env.removeFails)
    {
      ok := dir.Remove(todo[i], env.removeFails(todo[i]));
      if !ok {
        return false;
      }
      assert todo[i..][1..] == todo[i + 1..];
    }
    ok := true;
  }

  lemma {:induction false} MatchingSorted(files: seq<string>, name: ProfileName)
    requires NameSorted(files)
    ensures NameSorted(Matching(files, name))
  {
    if files != [] {
      var front, last := files[..|files| - 1], files[|files| - 1];
      MatchingSorted(front, name);
      forall x | x in Matching(front, name)
        ensures NameLess(x, last)
      {
        var i :| 0 <= i < |front| && front[i] == x;
        assert files[i] == x;
      }
    }
  }

  /** On a sorted `*.zip` listing, `findToDelete` picks the surplus of the directory's backups that
      are on it. */
  lemma ListedSurplus(entries: map<string, Entry>, names: seq<string>, name: ProfileName, keep: int,
                      missed: string -> bool)
    requires NameSorted(names)
    requires forall x :: x in names <==> x in entries && HasSuffix(x, ".zip") && !missed(x)
    ensures ToDelete(names, name, keep) == Doomed(entries, name, keep, missed)
  {
    MatchingSorted(names, name);
    assert TiesByName(Matching(names, name));
    ToDeleteIsSurplus(names, name, keep);
    forall f | f in Seen(Backups(entries, name), missed)
      ensures f in Matching(names, name)
    {
      MatchIsZip(name, f);
    }
    assert Elements(Matching(names, name)) == Seen(Backups(entries, name), missed);
  }

  // ---------- what an expurge leaves ----------

  /** What is left of a set of backups when everything that was seen and is not retained goes. */
  ghost function Left(keep: int, files: set<string>, missed: string -> bool): set<string> {
    files - (Seen(files, missed) - Retained(keep, Seen(files, missed)))
  }

  /** The listing showed enough for the expurge to be exact. */
  ghost predicate SeesEnough(keep: int, files: set<string>, missed: string -> bool) {
    keep <= 0 || |files| <= keep || forall f :: f in files ==> !missed(f)
  }

  /** Whatever the listing leaves out, no backup that retention keeps goes. */
  lemma LeftSafe(keep: int, files: set<string>, missed: string -> bool)
    ensures Retained(keep, files) <= Left(keep, files, missed) <= files
  {
    forall f | f in Retained(keep, files) && f in Seen(files, missed)
      ensures f in Retained(keep, Seen(files, missed))
    {
      if keep > 0 {
        NewestMonotone(keep, Seen(files, missed), files, f);
      }
    }
  }

  lemma LeftSize(keep: int, files: set<string>, missed: string -> bool)
    requires keep > 0
    ensures var n := |Seen(files, missed)|;
            |Left(keep, files, missed)| == if n <= keep then |files| else |files| - n + keep
  {
    var seen := Seen(files, missed);
    NewestSize(keep, seen);
    CutSize(files, seen);
    CutSize(seen, Newest(keep, seen));
    CutSize(files, seen - Newest(keep, seen));
  }

  lemma CutSize(files: set<string>, part: set<string>)
    requires part <= files
    ensures |files - part| == |files| - |part|
  {
  }

  /** Exactly what retention keeps is left if and only if there was nothing to remove or the listing
      was complete. */
  lemma LeftExact(keep: int, files: set<string>, missed: string -> bool)
    ensures Left(keep, files, missed) == Retained(keep, files) <==> SeesEnough(keep, files, missed)
  {
    var seen := Seen(files, missed);
    if keep > 0 {
      LeftSafe(keep, files, missed);
      LeftSize(keep, files, missed);
      NewestSize(keep, files);
      SubsetSize(seen, files);
      SubsetSize(Newest(keep, files), Left(keep, files, missed));
      if SeesEnough(keep, files, missed) && |files| > keep {
        assert seen == files;
      } else if !SeesEnough(keep, files, missed) {
        assert seen != files;
      }
    }
  }

  // ---------- stopping anywhere ----------

  /** The directory after the first `k` removals. */
  ghost function Midway(entries: map<string, Entry>, name: ProfileName, keep: int, missed: string -> bool,
                        k: nat): map<string, Entry>
    requires k <= |Doomed(entries, name, keep, missed)|
  {
    entries - Elements(Doomed(entries, name, keep, missed)[..k])
  }

  lemma {:induction false} RemoveEachPrefix(entries: map<string, Entry>, todo: seq<string>, fails: string -> bool)
    returns (k: nat)
    requires Increasing(todo) && Elements(todo) <= entries.Keys
    ensures k <= |todo|
    ensures RemoveEach(entries, todo, fails) == Outcome(entries - Elements(todo[..k]), k == |todo|)
    ensures k < |todo| ==> fails(todo[k])
    ensures forall i :: 0 <= i < k ==> !fails(todo[i])
  {
    if todo == [] || fails(todo[0]) {
      k := 0;
      assert todo != [] ==> todo[0] in Elements(todo);
      assert entries - Elements(todo[..0]) == entries;
    } else {
      assert todo[0] in Elements(todo);
      var rest := entries - {todo[0]};
      TailElements(todo);
      var k' := RemoveEachPrefix(rest, todo[1..], fails);
      k := k' + 1;
      assert todo[..k] == [todo[0]] + todo[1..][..k'];
      assert Elements(todo[..k]) == {todo[0]} + Elements(todo[1..][..k']);
      assert rest - Elements(todo[1..][..k']) == entries - Elements(todo[..k]);
    }
  }

  lemma DoomedSpec(entries: map<string, Entry>, name: ProfileName, keep: int, missed: string -> bool)
    ensures Increasing(Doomed(entries, name, keep, missed))
    ensures Elements(Doomed(entries, name, keep, missed))
            == Backups(entries, name) - Left(keep, Backups(entries, name), missed)
    ensures Elements(Doomed(entries, name, keep, missed)) <= entries.Keys
  {
    if keep > 0 {
      SurplusSpec(Seen(Backups(entries, name), missed), keep);
    }
  }

  /** Wherever an expurge stops, it has removed a prefix of the oldest-first order, and it stops
      early only at a file that cannot be removed. */
  lemma ExpurgeStopsMidway(entries: map<string, Entry>, keep: int, name: ProfileName, env: ExpurgeFaults)
    returns (k: nat)
    ensures var out, doomed := ExpurgeOutcome(entries, keep, name, env), Doomed(entries, name, keep, env.missed);
            && k <= |doomed|
            && out.entries == Midway(entries, name, keep, env.missed, k)
            && (out.ok ==> k == |doomed|)
            && (env.stat.IsDirectory? && name != "" && !out.ok ==> k < |doomed| && env.removeFails(doomed[k]))
  {
    if env.stat.IsDirectory? && keep > 0 && name != "" {
      DoomedSpec(entries, name, keep, env.missed);
      k := RemoveEachPrefix(entries, Doomed(entries, name, keep, env.missed), env.removeFails);
    } else {
      k := 0;
      assert Midway(entries, name, keep, env.missed, 0) == entries;
    }
  }

  /** At every intermediate point the kept backups are all there and nothing else is touched, whatever
      the listing left out. */
  lemma MidwaySafe(entries: map<string, Entry>, name: ProfileName, keep: int, missed: string -> bool, k: nat)
    requires k <= |Doomed(entries, name, keep, missed)|
    ensures var before, mid := Backups(entries, name), Midway(entries, name, keep, missed, k);
            && Retained(keep, before) <= Left(keep, before, missed) <= Backups(mid, name) <= before
            && (forall f :: f in entries && !Matches(name, f) ==> f in mid)
            && (k == |Doomed(entries, name, keep, missed)| ==> Backups(mid, name) == Left(keep, before, missed))
  {
    DoomedSpec(entries, name, keep, missed);
    LeftSafe(keep, Backups(entries, name), missed);
    var doomed := Doomed(entries, name, keep, missed);
    assert forall x :: x in doomed[..k] ==> x in Elements(doomed);
    if k == |doomed| {
      assert doomed[..k] == doomed;
    }
  }

  ghost predicate Clean(env: ExpurgeFaults) {
    env.stat.IsDirectory? && forall f :: !env.removeFails(f)
  }

  /** When an expurge succeeds: exactly when the path is a directory and, if anything is to be limited,
      there is a profile name and no file of the surplus it sees withstands removal. Without a directory
      or a name it changes nothing. */
  lemma ExpurgeSucceeds(entries: map<string, Entry>, keep: int, name: ProfileName, env: ExpurgeFaults)
    ensures var out, before := ExpurgeOutcome(entries, keep, name, env), Backups(entries, name);
            && (out.ok <==>
                  && env.stat.IsDirectory?
                  && (keep > 0 ==> name != "")
                  && forall f :: f in before - Left(keep, before, env.missed) ==> !env.removeFails(f))
            && (!env.stat.IsDirectory? || keep <= 0 || name == "" ==> out.entries == entries)
  {
    if env.stat.IsDirectory? && keep > 0 && name != "" {
      var doomed := Doomed(entries, name, keep, env.missed);
      DoomedSpec(entries, name, keep, env.missed);
      var k := RemoveEachPrefix(entries, doomed, env.removeFails);
      if k < |doomed| {
        assert doomed[k] in Elements(doomed);
      } else {
        forall f | f in Elements(doomed)
          ensures !env.removeFails(f)
        {
          var i :| 0 <= i < |doomed| && doomed[i] == f;
        }
      }
    }
  }

  ghost predicate SeesAll(env: ExpurgeFaults) {
    forall f :: !env.missed(f)
  }

  /** An expurge in which nothing fails leaves every file but the surplus it sees. */
  lemma CleanExpurge(entries: map<string, Entry>, keep: int, name: ProfileName, env: ExpurgeFaults)
    requires Clean(env) && name != ""
    ensures var out, before := ExpurgeOutcome(entries, keep, name, env), Backups(entries, name);
            out.ok && out.entries == entries - (before - Left(keep, before, env.missed))
  {
    DoomedSpec(entries, name, keep, env.missed);
    var k := ExpurgeStopsMidway(entries, keep, name, env);
    var doomed := Doomed(entries, name, keep, env.missed);
    assert doomed[..|doomed|] == doomed;
    assert k == |doomed|;
  }

  lemma DropRest(entries: map<string, Entry>, all: set<string>, gone: set<string>, left: set<string>,
                 kept: set<string>)
    requires all == gone + left && gone !! left && kept <= left
    ensures (entries - gone) - (left - kept) == entries - (all - kept)
  {
  }

  lemma MidwayParts(entries: map<string, Entry>, name: ProfileName, keep: int, missed: string -> bool, k: nat)
    requires k <= |Doomed(entries, name, keep, missed)|
    ensures var gone := Elements(Doomed(entries, name, keep, missed)[..k]);
            var left := Backups(Midway(entries, name, keep, missed, k), name);
            Backups(entries, name) == gone + left && gone !! left
  {
    DoomedSpec(entries, name, keep, missed);
    var doomed := Doomed(entries, name, keep, missed);
    assert forall x :: x in doomed[..k] ==> x in Elements(doomed);
  }

  /** A complete listing leaves exactly what retention keeps, also of what is left midway. */
  lemma LeftOfMidway(keep: int, left: set<string>, all: set<string>, missed: string -> bool)
    requires Retained(keep, all) <= left <= all && forall f :: !missed(f)
    ensures Left(keep, left, missed) == Left(keep, all, missed) == Retained(keep, all) <= left
  {
    LeftExact(keep, left, missed);
    LeftExact(keep, all, missed);
    if keep > 0 {
      NewestSandwich(keep, left, all);
    }
  }

  /** Failure safety: after an expurge that was interrupted anywhere, with whatever listing, a run that
      sees all files and in which nothing fails ends where it would have ended in the first place. */
  lemma ExpurgeResumes(entries: map<string, Entry>, keep: int, name: ProfileName, missed: string -> bool, k: nat,
                       env: ExpurgeFaults)
    requires k <= |Doomed(entries, name, keep, missed)|
    requires Clean(env) && SeesAll(env) && name != ""
    ensures ExpurgeOutcome(Midway(entries, name, keep, missed, k), keep, name, env)
            == ExpurgeOutcome(entries, keep, name, env)
  {
    var mid := Midway(entries, name, keep, missed, k);
    var all, left := Backups(entries, name), Backups(mid, name);
    assert left <= all && Retained(keep, all) <= left by {
      MidwaySafe(entries, name, keep, missed, k);
    }
    if keep <= 0 {
      assert left == all && mid == entries;
    } else {
      LeftOfMidway(keep, left, all, env.missed);
      CleanExpurge(entries, keep, name, env);
      CleanExpurge(mid, keep, name, env);
      MidwayParts(entries, name, keep, missed, k);
      DropRest(entries, all, Elements(Doomed(entries, name, keep, missed)[..k]), left, Retained(keep, all));
    }
  }

  /** What any expurge guarantees, however it ends and whatever its listing leaves out. After a success
      exactly the newest backups are left if and only if there was no surplus or the listing showed
      every backup of the profile. */
  lemma ExpurgeSafe(entries: map<string, Entry>, keep: int, name: ProfileName, env: ExpurgeFaults)
    ensures var out, before := ExpurgeOutcome(entries, keep, name, env), Backups(entries, name);
            && Retained(keep, before) <= Backups(out.entries, name) <= before
            && (out.ok ==> Backups(out.entries, name) == Left(keep, before, env.missed))
            && (out.ok ==> (Backups(out.entries, name) == Retained(keep, before)
                            <==> SeesEnough(keep, before, env.missed)))
            && (forall f :: f in out.entries ==> f in entries && out.entries[f] == entries[f])
            && (forall f :: f in entries && !Matches(name, f) ==> f in out.entries)
  {
    var k := ExpurgeStopsMidway(entries, keep, name, env);
    MidwaySafe(entries, name, keep, env.missed, k);
    LeftExact(keep, Backups(entries, name), env.missed);
  }
}
