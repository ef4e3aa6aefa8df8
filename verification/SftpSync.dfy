/** `runSyncProfile`: for each directory of the profile, pull the remote backups that are missing
    locally and expurge what retention does not keep. */
module SftpSync {
  import opened Text
  import opened BackupName
  import opened Retention
  import opened Store
  import opened Expurge

  /** How one download ends. A file that breaks off after it was created keeps the bytes written
      so far; every outcome but `Done` is an error. */
  datatype Download = Done | CannotOpen | CannotCreate | BreaksOff(written: string)

  /** A remote directory: its entries, the order the server lists them in, and what the
      environment decides about reading it. */
  datatype Remote = Remote(
    entries: map<string, Entry>,
    listing: seq<string>,
    stat: Stat,
    listFails: bool,
    download: string -> Download)

  ghost predicate Listed(remote: Remote) {
    forall f :: f in remote.listing <==> f in remote.entries
  }

  /** Drop the subdirectories of a listing. */
  function FilesOf(names: seq<string>, entries: map<string, Entry>): (files: seq<string>)
    ensures forall f :: f in files <==> f in names && !(f in entries && entries[f].Subdir?)
  {
    if names == [] then []
    else
      var f := names[|names| - 1];
      var front := FilesOf(names[..|names| - 1], entries);
      if f in entries && entries[f].Subdir? then front else front + [f]
  }

  /** The files of the profile that are on the list and not in the set, in order. */
  function Missing(remote: seq<string>, local: set<string>, name: ProfileName): (missing: seq<string>)
    ensures forall f :: f in missing <==> f in remote && Matches(name, f) && f !in local
  {
    if remote == [] then []
    else
      var f := remote[|remote| - 1];
      var front := Missing(remote[..|remote| - 1], local, name);
      if Matches(name, f) && f !in local then front + [f] else front
  }

  function NoDirectory(entries: map<string, Entry>): string -> bool {
    f => !(f in entries && entries[f].Subdir?)
  }

  function Absent(local: set<string>, name: ProfileName): string -> bool {
    f => Matches(name, f) && f !in local
  }

  lemma {:induction false} FilesInOrder(names: seq<string>, entries: map<string, Entry>) returns (at: seq<nat>)
    ensures PicksInOrder(names, NoDirectory(entries), FilesOf(names, entries), at)
  {
    at := [];
    if names != [] {
      var front, last := names[..|names| - 1], names[|names| - 1];
      at := FilesInOrder(front, entries);
      PickLast(names, NoDirectory(entries), FilesOf(front, entries), at);
      if !(last in entries && entries[last].Subdir?) {
        at := at + [|names| - 1];
      }
    }
  }

  lemma {:induction false} MissingInOrder(remote: seq<string>, local: set<string>, name: ProfileName)
    returns (at: seq<nat>)
    ensures PicksInOrder(remote, Absent(local, name), Missing(remote, local, name), at)
  {
    at := [];
    if remote != [] {
      var front, last := remote[..|remote| - 1], remote[|remote| - 1];
      at := MissingInOrder(front, local, name);
      PickLast(remote, Absent(local, name), Missing(front, local, name), at);
      if Matches(name, last) && last !in local {
        at := at + [|remote| - 1];
      }
    }
  }

  method FindDifferentProfiles(remote: seq<string>, local: seq<string>, name: ProfileName)
    returns (missingLocally: seq<string>)
    ensures missingLocally == Missing(remote, (set l | l in local), name)
  {
    var remoteMatches := KeepMatching(remote, name);
    ghost var names := set l | l in local;
    missingLocally := [];
    label outer:
    for i := 0 to |remoteMatches|
      invariant missingLocally == Missing(remoteMatches[..i], names, name)
    {
      var f := remoteMatches[i];
      assert remoteMatches[..i + 1][..i] == remoteMatches[..i];
      for j := 0 to |local|
        invariant f !in local[..j]
      {
        if f == local[j] {
          continue outer;
        }
        assert local[..j + 1] == local[..j] + [local[j]];
      }
      assert local[..|local|] == local;
      assert f in remoteMatches;
      missingLocally := missingLocally + [f];
    }
    assert remoteMatches[..|remoteMatches|] == remoteMatches;
    MissingOfMatching(remote, names, name);
  }

  /** Filtering by the pattern first makes no difference. */
  lemma {:induction false} MissingOfMatching(remote: seq<string>, local: set<string>, name: ProfileName)
    ensures Missing(Matching(remote, name), local, name) == Missing(remote, local, name)
  {
    if remote != [] {
      var front, f := remote[..|remote| - 1], remote[|remote| - 1];
      MissingOfMatching(front, local, name);
      if Matches(name, f) {
        var found := Matching(front, name);
        assert (found + [f])[..|found|] == found;
      }
    }
  }

  // ---------- pulling ----------

  ghost function DownloadOutcome(entries: map<string, Entry>, f: string, content: string, d: Download): Outcome {
    if d.CannotOpen? || d.CannotCreate? || (f in entries && entries[f].Subdir?) then Outcome(entries, false)
    else match d
      case Done => Outcome(entries[f := File(content)], true)
      case BreaksOff(written) => Outcome(entries[f := File(written)], false)
  }

  /** The bytes an open of the remote file would read. */
  function RemoteContent(remote: Remote, f: string): string {
    if f in remote.entries && remote.entries[f].File? then remote.entries[f].content else ""
  }

  ghost function DownloadEach(entries: map<string, Entry>, todo: seq<string>, remote: Remote): Outcome
    decreases |todo|
  {
    if todo == [] then Outcome(entries, true)
    else
      var one := DownloadOutcome(entries, todo[0], RemoteContent(remote, todo[0]), remote.download(todo[0]));
      if !one.ok then one else DownloadEach(one.entries, todo[1..], remote)
  }

  function LocalFiles(entries: map<string, Entry>): set<string> {
    set f | f in entries && entries[f].File?
  }

  /** What a pull sets out to download, in the server's listing order. */
  ghost function Wanted(entries: map<string, Entry>, remote: Remote, name: ProfileName): seq<string> {
    Missing(FilesOf(remote.listing, remote.entries), LocalFiles(entries), name)
  }

  /** What a pull goes for: no directory there, a match of the profile, and no file here. */
  function Wants(entries: map<string, Entry>, remote: Remote, name: ProfileName): string -> bool {
    f => !(f in remote.entries && remote.entries[f].Subdir?) && Matches(name, f)
         && !(f in entries && entries[f].File?)
  }

  /** It wants all such names, in the order in which the server lists them. */
  lemma WantedInOrder(entries: map<string, Entry>, remote: Remote, name: ProfileName) returns (at: seq<nat>)
    ensures PicksInOrder(remote.listing, Wants(entries, remote, name), Wanted(entries, remote, name), at)
  {
    var files, local := FilesOf(remote.listing, remote.entries), LocalFiles(entries);
    var first := FilesInOrder(remote.listing, remote.entries);
    var second := MissingInOrder(files, local, name);
    at := PickTwice(remote.listing, NoDirectory(remote.entries), files, first, Absent(local, name),
                    Wanted(entries, remote, name), second);
    WantsBoth(entries, remote, name);
    SamePicks(remote.listing, Both(NoDirectory(remote.entries), Absent(local, name)), Wants(entries, remote, name),
              Wanted(entries, remote, name), at);
  }

  lemma WantsBoth(entries: map<string, Entry>, remote: Remote, name: ProfileName)
    ensures forall f :: Both(NoDirectory(remote.entries), Absent(LocalFiles(entries), name))(f)
                        == Wants(entries, remote, name)(f)
  {
  }

  ghost function PullOutcome(entries: map<string, Entry>, localFails: bool, remote: Remote, name: ProfileName): Outcome
  {
    if localFails || !remote.stat.IsDirectory? || remote.listFails || name == "" then Outcome(entries, false)
    else DownloadEach(entries, Wanted(entries, remote, name), remote)
  }

  method SftpDownload(dir: Directory, f: string, content: string, d: Download) returns (ok: bool)
    modifies dir
    ensures Outcome(dir.entries, ok) == DownloadOutcome(old(dir.entries), f, content, d)
  {
    if d.CannotOpen? {
      return false;
    }
    if d.BreaksOff? {
      var created := dir.Write(f, d.written, false);
      return false;
    }
    ok := dir.Write(f, content, d.CannotCreate?);
  }

  method SyncRemoteBackups(dir: Directory, localFails: bool, remote: Remote, name: ProfileName) returns (ok: bool)
    modifies dir
    ensures Outcome(dir.entries, ok) == PullOutcome(old(dir.entries), localFails, remote, name)
  {
    if localFails {
      return false;
    }
    var names := dir.ReadDir();
    var localFiles := KeepFiles(names, dir.entries);
    if !remote.stat.IsDirectory? || remote.listFails {
      return false;
    }
    var remoteFiles := KeepFiles(remote.listing, remote.entries);
    if name == "" {
      return false;
    }
    var diff := FindDifferentProfiles(remoteFiles, localFiles, name);
    assert LocalFiles(dir.entries) == set l | l in localFiles;
    ghost var before := dir.entries;
    for i := 0 to |diff|
      invariant DownloadEach(before, diff, remote) == DownloadEach(dir.entries, diff[i..], remote)
    {
      ok := SftpDownload(dir, diff[i], RemoteContent(remote, diff[i]), remote.download(diff[i]));
      assert diff[i..][1..] == diff[i + 1..];
      if !ok {
        return false;
      }
    }
    ok := true;
  }

  method KeepFiles(names: seq<string>, entries: map<string, Entry>) returns (files: seq<string>)
    ensures files == FilesOf(names, entries)
  {
    files := [];
    for i := 0 to |names|
      invariant files == FilesOf(names[..i], entries)
    {
      assert names[..i + 1][..i] == names[..i];
      if !(names[i] in entries && entries[names[i]].Subdir?) {
        files := files + [names[i]];
      }
    }
    assert names[..|names|] == names;
  }

  // ---------- one directory of a sync run ----------

  /** One entry of the profile's directory list with everything the environment decides about it. */
  datatype SyncDir = SyncDir(
    name: ProfileName,
    remote: Remote,
    localFails: bool,
    expurge: ExpurgeFaults)

  ghost function SyncOutcome(entries: map<string, Entry>, d: SyncDir, keep: int): Outcome {
    var pulled := PullOutcome(entries, d.localFails, d.remote, d.name);
    if pulled.ok && keep > 0 then ExpurgeOutcome(pulled.entries, keep, d.name, d.expurge) else pulled
  }

  ghost function Pullable(remote: Remote, name: ProfileName): set<string> {
    set f | f in remote.entries && remote.entries[f].File? && Matches(name, f)
  }

  /** What any pull guarantees: only missing backups of the profile are written. */
  lemma {:induction false} DownloadEachSafe(entries: map<string, Entry>, todo: seq<string>, remote: Remote)
    ensures var out := DownloadEach(entries, todo, remote);
            && entries.Keys <= out.entries.Keys <= entries.Keys + Elements(todo)
            && (forall f :: f in entries && f !in todo ==> out.entries[f] == entries[f])
            && (out.ok ==> out.entries.Keys == entries.Keys + Elements(todo))
            && (out.ok ==> forall f :: f in todo ==> out.entries[f] == File(RemoteContent(remote, f)))
            && ((forall f :: f in todo ==> remote.download(f).Done? && !(f in entries && entries[f].Subdir?)) ==>
                  out.ok)
    decreases |todo|
  {
    if todo != [] {
      var one := DownloadOutcome(entries, todo[0], RemoteContent(remote, todo[0]), remote.download(todo[0]));
      assert todo[0] in Elements(todo);
      assert Elements(todo) == {todo[0]} + Elements(todo[1..]);
      assert forall f :: f in todo <==> f == todo[0] || f in todo[1..];
      if one.ok {
        DownloadEachSafe(one.entries, todo[1..], remote);
      }
    }
  }

  /** What stands in the way of a download: the server, or a local subdirectory of the name. */
  predicate Fetchable(entries: map<string, Entry>, remote: Remote, f: string) {
    remote.download(f).Done? && (f in entries ==> entries[f].File?)
  }

  /** What a list of downloads of which only the first `k` went through has left under a name: the
      remote content, as much as the `k`-th had written if it broke off, or what was there before. */
  ghost predicate FetchedUpTo(entries: map<string, Entry>, todo: seq<string>, remote: Remote, k: nat,
                              out: map<string, Entry>, f: string)
    requires k <= |todo|
  {
    if k < |todo| && f == todo[k] && remote.download(f).BreaksOff? && (f in entries ==> entries[f].File?) then
      f in out && out[f] == File(remote.download(f).written)
    else if f in todo[..k] then
      f in out && if f in remote.entries && remote.entries[f].File? then out[f] == remote.entries[f]
                  else out[f] == File("")
    else
      (f in out <==> f in entries) && (f in out && f in entries ==> out[f] == entries[f])
  }

  /** Downloads go in order up to the first that cannot be made, and leave exactly this. */
  lemma {:induction false} DownloadsInOrder(entries: map<string, Entry>, todo: seq<string>, remote: Remote)
    returns (k: nat)
    ensures k <= |todo| && (DownloadEach(entries, todo, remote).ok <==> k == |todo|)
    ensures forall i :: 0 <= i < k ==> Fetchable(entries, remote, todo[i])
    ensures k < |todo| ==> !Fetchable(entries, remote, todo[k])
    ensures forall f :: FetchedUpTo(entries, todo, remote, k, DownloadEach(entries, todo, remote).entries, f)
    decreases |todo|
  {
    k := 0;
    if todo != [] && Fetchable(entries, remote, todo[0]) {
      var mid := entries[todo[0] := File(RemoteContent(remote, todo[0]))];
      var k' := DownloadsInOrder(mid, todo[1..], remote);
      k := k' + 1;
      assert forall f :: Fetchable(mid, remote, f) <==> Fetchable(entries, remote, f);
      assert forall i :: 0 <= i < |todo| - 1 ==> todo[1..][i] == todo[i + 1];
      forall f
        ensures FetchedUpTo(entries, todo, remote, k, DownloadEach(entries, todo, remote).entries, f)
      {
        assert FetchedUpTo(mid, todo[1..], remote, k', DownloadEach(mid, todo[1..], remote).entries, f);
        assert f in todo[..k] <==> f == todo[0] || f in todo[1..][..k'];
      }
    }
  }

  /** When a pull succeeds: exactly when both directories can be listed, there is a name to look for,
      and every wanted file can be fetched. A pull that cannot list them changes nothing. */
  lemma PullSucceeds(entries: map<string, Entry>, localFails: bool, remote: Remote, name: ProfileName)
    ensures var out := PullOutcome(entries, localFails, remote, name);
            var listed := !localFails && remote.stat.IsDirectory? && !remote.listFails && name != "";
            && (out.ok <==> listed && forall f :: f in Wanted(entries, remote, name) ==> Fetchable(entries, remote, f))
            && (!listed ==> out.entries == entries)
  {
    if !localFails && remote.stat.IsDirectory? && !remote.listFails && name != "" {
      var todo := Wanted(entries, remote, name);
      var k := DownloadsInOrder(entries, todo, remote);
      if k == |todo| {
        forall f | f in todo
          ensures Fetchable(entries, remote, f)
        {
          var i :| 0 <= i < |todo| && todo[i] == f;
        }
      } else {
        assert todo[k] in todo;
      }
    }
  }

  /** A directory is expurged only after a pull that succeeded. */
  lemma SyncStops(entries: map<string, Entry>, d: SyncDir, keep: int)
    ensures var pulled, out := PullOutcome(entries, d.localFails, d.remote, d.name), SyncOutcome(entries, d, keep);
            var all := Backups(pulled.entries, d.name);
            && (!pulled.ok ==> out == pulled)
            && (out.ok <==> pulled.ok && (keep > 0 ==>
                  && d.expurge.stat.IsDirectory?
                  && forall f :: f in all - Left(keep, all, d.expurge.missed) ==> !d.expurge.removeFails(f)))
  {
    ExpurgeSucceeds(PullOutcome(entries, d.localFails, d.remote, d.name).entries, keep, d.name, d.expurge);
  }

  lemma PullSafe(entries: map<string, Entry>, localFails: bool, remote: Remote, name: ProfileName)
    requires Listed(remote)
    ensures var out := PullOutcome(entries, localFails, remote, name);
            && Backups(entries, name) <= Backups(out.entries, name) <= Backups(entries, name) + Pullable(remote, name)
            && (out.ok ==> Backups(out.entries, name) == Backups(entries, name) + Pullable(remote, name))
            && (forall f :: f in entries && (entries[f].File? || !Matches(name, f)) ==>
                  f in out.entries && out.entries[f] == entries[f])
            && (forall f :: f in out.entries && f !in entries ==> f in Pullable(remote, name))
            && (out.ok ==> forall f :: f in out.entries && f !in entries ==> out.entries[f] == remote.entries[f])
  {
    if !localFails && remote.stat.IsDirectory? && !remote.listFails && name != "" {
      var todo := Wanted(entries, remote, name);
      DownloadEachSafe(entries, todo, remote);
      assert forall f :: f in todo ==> f in Pullable(remote, name);
    }
  }

  /** A successful sync of one directory leaves of the union of local and remote backups all but the
      surplus its expurge sees, with every other entry and every local content as it was. */
  lemma SyncSuccess(entries: map<string, Entry>, d: SyncDir, keep: int)
    requires Listed(d.remote)
    requires SyncOutcome(entries, d, keep).ok
    ensures var out := SyncOutcome(entries, d, keep).entries;
            var union := Backups(entries, d.name) + Pullable(d.remote, d.name);
            && Backups(out, d.name) == Left(keep, union, d.expurge.missed)
            && (forall f :: f in Backups(out, d.name) ==>
                  out[f] == if f in entries then entries[f] else d.remote.entries[f])
            && (forall f :: !Matches(d.name, f) ==> (f in out <==> f in entries))
            && (forall f :: !Matches(d.name, f) && f in entries ==> out[f] == entries[f])
  {
    PullSafe(entries, d.localFails, d.remote, d.name);
    var pulled := PullOutcome(entries, d.localFails, d.remote, d.name);
    ExpurgeSafe(pulled.entries, keep, d.name, d.expurge);
    forall f | f in Backups(pulled.entries, d.name) && f in entries
      ensures pulled.entries[f] == entries[f]
    {
      SubdirStays(entries, d, f);
    }
  }

  /** It is exactly what retention keeps of that union if and only if there was no surplus or the
      listing for the expurge showed all of it. */
  lemma SyncLeavesExactly(entries: map<string, Entry>, d: SyncDir, keep: int)
    requires Listed(d.remote) && SyncOutcome(entries, d, keep).ok
    ensures var union := Backups(entries, d.name) + Pullable(d.remote, d.name);
            Backups(SyncOutcome(entries, d, keep).entries, d.name) == Retained(keep, union)
            <==> SeesEnough(keep, union, d.expurge.missed)
  {
    SyncSuccess(entries, d, keep);
    LeftExact(keep, Backups(entries, d.name) + Pullable(d.remote, d.name), d.expurge.missed);
  }

  /** In any case it is at least that. */
  lemma SyncLeaves(entries: map<string, Entry>, d: SyncDir, keep: int)
    requires Listed(d.remote) && SyncOutcome(entries, d, keep).ok
    ensures var union := Backups(entries, d.name) + Pullable(d.remote, d.name);
            Retained(keep, union) <= Backups(SyncOutcome(entries, d, keep).entries, d.name) <= union
  {
    SyncSuccess(entries, d, keep);
    LeftSafe(keep, Backups(entries, d.name) + Pullable(d.remote, d.name), d.expurge.missed);
  }

  /** A subdirectory is in the way of a download of the same name, which then fails. */
  lemma SubdirStays(entries: map<string, Entry>, d: SyncDir, f: string)
    requires Listed(d.remote)
    requires PullOutcome(entries, d.localFails, d.remote, d.name).ok && f in entries
    ensures var out := PullOutcome(entries, d.localFails, d.remote, d.name).entries;
            f in out && out[f] == entries[f]
  {
    PullSafe(entries, d.localFails, d.remote, d.name);
    var todo := Wanted(entries, d.remote, d.name);
    DownloadEachSafe(entries, todo, d.remote);
    if f in todo {
      BlockedDownload(entries, todo, d.remote, f);
    }
  }

  lemma {:induction false} BlockedDownload(entries: map<string, Entry>, todo: seq<string>, remote: Remote, f: string)
    requires f in todo && f in entries && entries[f].Subdir?
    ensures !DownloadEach(entries, todo, remote).ok
    decreases |todo|
  {
    var one := DownloadOutcome(entries, todo[0], RemoteContent(remote, todo[0]), remote.download(todo[0]));
    if one.ok {
      assert f in todo[1..];
      BlockedDownload(one.entries, todo[1..], remote, f);
    }
  }

  /** Whatever fails, a sync never drops a backup that is among the newest of a set holding all
      local and remote ones, and touches nothing of other profiles. */
  lemma SyncNeverLoses(entries: map<string, Entry>, d: SyncDir, keep: int, all: set<string>)
    requires Listed(d.remote)
    requires Backups(entries, d.name) + Pullable(d.remote, d.name) <= all
    ensures var out := SyncOutcome(entries, d, keep).entries;
            && Backups(entries, d.name) * Retained(keep, all) <= Backups(out, d.name) <= all
            && (forall f :: f in entries && !Matches(d.name, f) ==> f in out && out[f] == entries[f])
            && (forall f :: f in out && !Matches(d.name, f) ==> f in entries)
  {
    PullSafe(entries, d.localFails, d.remote, d.name);
    var pulled := PullOutcome(entries, d.localFails, d.remote, d.name);
    ExpurgeSafe(pulled.entries, keep, d.name, d.expurge);
    forall f | f in Backups(entries, d.name) * Retained(keep, all)
      ensures f in Backups(SyncOutcome(entries, d, keep).entries, d.name)
    {
      if keep > 0 {
        NewestMonotone(keep, Backups(pulled.entries, d.name), all, f);
      }
    }
  }

  /** The environment lets every step of a sync succeed. */
  ghost predicate NothingFails(d: SyncDir) {
    && d.name != "" && !d.localFails && Clean(d.expurge)
    && d.remote.stat.IsDirectory? && !d.remote.listFails
    && forall f :: d.remote.download(f).Done?
  }

  /** When nothing fails, a sync succeeds exactly if no local subdirectory bears the name of a remote
      backup. */
  lemma SyncSucceeds(entries: map<string, Entry>, d: SyncDir, keep: int)
    requires Listed(d.remote) && NothingFails(d)
    ensures SyncOutcome(entries, d, keep).ok
            <==> forall f :: f in Pullable(d.remote, d.name) && f in entries ==> entries[f].File?
  {
    var todo := Wanted(entries, d.remote, d.name);
    DownloadEachSafe(entries, todo, d.remote);
    var pulled := PullOutcome(entries, d.localFails, d.remote, d.name);
    CleanExpurge(pulled.entries, keep, d.name, d.expurge);
    if f :| f in Pullable(d.remote, d.name) && f in entries && entries[f].Subdir? {
      assert f in todo;
      BlockedDownload(entries, todo, d.remote, f);
    } else {
      assert forall f :: f in todo ==> f in Pullable(d.remote, d.name);
    }
  }

  /** What a download of `f` may leave behind. */
  ghost predicate Fetched(remote: Remote, f: string, entry: Entry) {
    || entry == File(RemoteContent(remote, f))
    || (remote.download(f).BreaksOff? && entry == File(remote.download(f).written))
  }

  lemma {:induction false} DownloadedFrom(entries: map<string, Entry>, todo: seq<string>, remote: Remote, f: string)
    requires f in DownloadEach(entries, todo, remote).entries
    ensures var out := DownloadEach(entries, todo, remote).entries;
            (f in entries && out[f] == entries[f]) || (f in todo && Fetched(remote, f, out[f]))
    decreases |todo|
  {
    if todo != [] {
      var one := DownloadOutcome(entries, todo[0], RemoteContent(remote, todo[0]), remote.download(todo[0]));
      if one.ok {
        DownloadedFrom(one.entries, todo[1..], remote, f);
      }
    }
  }

  /** Contents, however a sync ends: every local backup is the one that was there, or the remote one,
      or as much of it as a download that broke off had written. */
  lemma SyncContents(entries: map<string, Entry>, d: SyncDir, keep: int, f: string)
    requires Listed(d.remote) && f in Backups(SyncOutcome(entries, d, keep).entries, d.name)
    ensures var out := SyncOutcome(entries, d, keep).entries;
            || (f in entries && out[f] == entries[f])
            || (f in Pullable(d.remote, d.name) && out[f] == d.remote.entries[f])
            || (d.remote.download(f).BreaksOff? && out[f] == File(d.remote.download(f).written))
  {
    var pulled := PullOutcome(entries, d.localFails, d.remote, d.name);
    ExpurgeSafe(pulled.entries, keep, d.name, d.expurge);
    var todo := Wanted(entries, d.remote, d.name);
    if pulled.entries != entries {
      DownloadedFrom(entries, todo, d.remote, f);
      assert f in todo ==> f in Pullable(d.remote, d.name);
    }
  }

  /** Files dropped by retention never matter again: what must be kept of any part that holds what was
      retained, together with more files, is what must be kept of all of them at once. */
  lemma RetainedAgain(keep: int, files: set<string>, part: set<string>, more: set<string>)
    requires Retained(keep, files) <= part <= files
    ensures Retained(keep, part + more) == Retained(keep, files + more)
    ensures Retained(keep, files + more) * files <= Retained(keep, files)
  {
    if keep > 0 {
      forall f | f in Newest(keep, files + more) && f in files
        ensures f in Newest(keep, files)
      {
        NewestMonotone(keep, files, files + more, f);
      }
      NewestSandwich(keep, part + more, files + more);
    }
  }

  lemma RetainedTwice(keep: int, local: set<string>, remote: set<string>)
    ensures Retained(keep, Retained(keep, local + remote) + remote) == Retained(keep, local + remote)
  {
    LeftSafe(keep, local + remote, _ => false);
    RetainedAgain(keep, local + remote, Retained(keep, local + remote), remote);
    assert (local + remote) + remote == local + remote;
  }

  /** One sync is enough: repeating it with an unchanged remote gives back the same directory, even
      though it pulls older remote backups again and removes them again, as long as the listings of both
      expurges are complete. */
  lemma SyncFixpoint(entries: map<string, Entry>, d: SyncDir, again: SyncDir, keep: int)
    requires Listed(d.remote)
    requires again.name == d.name && again.remote.entries == d.remote.entries && Listed(again.remote)
    requires SyncOutcome(entries, d, keep).ok
    requires SyncOutcome(SyncOutcome(entries, d, keep).entries, again, keep).ok
    requires SeesAll(d.expurge) && SeesAll(again.expurge)
    ensures var once := SyncOutcome(entries, d, keep).entries;
            SyncOutcome(once, again, keep).entries == once
  {
    var once := SyncOutcome(entries, d, keep).entries;
    var twice := SyncOutcome(once, again, keep).entries;
    SyncSuccess(entries, d, keep);
    SyncSuccess(once, again, keep);
    SyncLeavesExactly(entries, d, keep);
    SyncLeavesExactly(once, again, keep);
    assert Pullable(again.remote, d.name) == Pullable(d.remote, d.name);
    RetainedTwice(keep, Backups(entries, d.name), Pullable(d.remote, d.name));
    SameBackupsSameEntries(once, twice, d.name);
  }

  lemma SameBackupsSameEntries(a: map<string, Entry>, b: map<string, Entry>, name: ProfileName)
    requires Backups(a, name) == Backups(b, name)
    requires forall f :: f in Backups(b, name) ==> b[f] == a[f]
    requires forall f :: !Matches(name, f) ==> (f in b <==> f in a)
    requires forall f :: !Matches(name, f) && f in a ==> b[f] == a[f]
    ensures b == a
  {
    forall f
      ensures f in b <==> f in a
      ensures f in a ==> b[f] == a[f]
    {
      if Matches(name, f) {
        assert f in b <==> f in Backups(b, name);
        assert f in a <==> f in Backups(a, name);
      }
    }
  }

  /** Contents: after a successful pull every remote backup is there byte for byte exactly when no
      different local file already bore one of the names (such as a download that broke off). */
  lemma PulledContents(entries: map<string, Entry>, localFails: bool, remote: Remote, name: ProfileName)
    requires Listed(remote)
    requires PullOutcome(entries, localFails, remote, name).ok
    ensures var out := PullOutcome(entries, localFails, remote, name).entries;
            (forall f :: f in Pullable(remote, name) ==> f in out && out[f] == remote.entries[f])
            <==> (forall f :: f in Pullable(remote, name) && f in entries ==> entries[f] == remote.entries[f])
  {
    var d := SyncDir(name, remote, localFails, ExpurgeFaults(IsDirectory, _ => false, _ => false));
    var out := PullOutcome(entries, localFails, remote, name).entries;
    PullSafe(entries, localFails, remote, name);
    forall f | f in entries
      ensures f in out && out[f] == entries[f]
    {
      SubdirStays(entries, d, f);
    }
    forall f | f in Pullable(remote, name)
      ensures f in out
    {
      assert f in Backups(out, name);
    }
  }
}
