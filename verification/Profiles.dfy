/** Loading profiles, from the decoded YAML record on: what validation lets through, and that the
    guards of the run-time code are then never taken. */
module Profiles {
  import opened Text
  import opened Store
  import ArchiveRun

  datatype Ssh = Ssh(kind: string, host: string, port: int, user: string)

  datatype RawDir = RawDir(path: string, name: string, exclude: seq<string>)

  datatype Db = Db(name: string, kind: string, container: string)

  /** The record a profile file decodes to. */
  datatype RawProfile = RawProfile(
    name: string, kind: string, ssh: Ssh, dirs: seq<RawDir>, dbs: seq<Db>, destination: Destination)

  datatype Profile = Profile(
    name: string, kind: string, ssh: Ssh, dirs: seq<RawDir>, dbs: seq<Db>, destination: Destination)

  const LOCAL := "local"
  const REMOTE := "remote"
  const SFTP_SYNC := "sftpsync"

  /** What the loader takes from libraries: lower-casing, and whether an exclude pattern compiles. */
  datatype Library = Library(lower: string -> string, compiles: string -> bool)

  // ---------- the loader, step by step ----------

  function CreateProfile(lib: Library, raw: RawProfile): Result<Profile, string> {
    if raw.kind == "" then Err("profile has no type")
    else if lib.lower(raw.kind) !in {SFTP_SYNC, LOCAL, REMOTE} then Err("profile has invalid type")
    else if raw.name == "" then Err("profile name cannot be empty")
    else Ok(Profile(raw.name, lib.lower(raw.kind), raw.ssh.(kind := lib.lower(raw.ssh.kind)), [], [], raw.destination))
  }

  /** The profile under construction, which validation may complete. */
  class Draft {
    var profile: Profile

    constructor (profile: Profile)
      ensures this.profile == profile
    {
      this.profile := profile;
    }

    /** Checks the ssh part of profiles that use it; a missing port becomes 22. */
    method ValidateSshConfig() returns (ok: bool)
      modifies this
      ensures ok <==> (old(profile.kind) in {SFTP_SYNC, REMOTE} ==>
                         old(profile.ssh.kind) in {"sshkey", "password", "sshagent"} && old(profile.ssh.host) != "")
      ensures ok ==> profile == WithPort(old(profile))
      ensures !ok ==> profile == old(profile)
    {
      if profile.kind in {SFTP_SYNC, REMOTE} {
        if profile.ssh.kind !in {"sshkey", "password", "sshagent"} {
          return false;
        }
        if profile.ssh.host == "" {
          return false;
        }
        if profile.ssh.port == 0 {
          profile := profile.(ssh := profile.ssh.(port := 22));
        }
      }
      ok := true;
    }
  }

  function WithPort(p: Profile): Profile {
    if p.kind in {SFTP_SYNC, REMOTE} && p.ssh.port == 0 then p.(ssh := p.ssh.(port := 22)) else p
  }

  predicate GoodDir(lib: Library, kind: string, dir: RawDir) {
    && (forall i :: 0 <= i < |dir.exclude| ==> lib.compiles(dir.exclude[i]))
    && dir.path != ""
    && (kind == SFTP_SYNC ==> dir.name != "")
  }

  method ProcessDirectories(lib: Library, dirs: seq<RawDir>, kind: string) returns (r: Result<seq<RawDir>, string>)
    ensures r.Ok? <==> forall i :: 0 <= i < |dirs| ==> GoodDir(lib, kind, dirs[i])
    ensures r.Ok? ==> r.value == dirs
  {
    var backupDirs: seq<RawDir> := [];
    for i := 0 to |dirs|
      invariant backupDirs == dirs[..i]
      invariant forall k :: 0 <= k < i ==> GoodDir(lib, kind, dirs[k])
    {
      var dir := dirs[i];
      for j := 0 to |dir.exclude|
        invariant forall k :: 0 <= k < j ==> lib.compiles(dir.exclude[k])
      {
        if !lib.compiles(dir.exclude[j]) {
          return Err("unable to compile exclude pattern");
        }
      }
      if dir.path == "" {
        return Err("profile path cannot be empty");
      }
      if kind == SFTP_SYNC && dir.name == "" {
        return Err("profile name for sync path cannot be empty");
      }
      backupDirs := backupDirs + [dir];
    }
    r := Ok(backupDirs);
  }

  function LowerDb(lib: Library, db: Db): Db {
    db.(kind := lib.lower(db.kind))
  }

  function LowerDbs(lib: Library, dbs: seq<Db>): (r: seq<Db>)
    ensures |r| == |dbs| && forall i :: 0 <= i < |r| ==> r[i] == LowerDb(lib, dbs[i])
  {
    seq(|dbs|, i requires 0 <= i < |dbs| => LowerDb(lib, dbs[i]))
  }

  predicate GoodDb(lib: Library, db: Db) {
    lib.lower(db.kind) in {"dockerpostgres", "dockermysql"} ==> db.container != ""
  }

  method ProcessDatabases(lib: Library, dbs: seq<Db>) returns (r: Result<seq<Db>, string>)
    ensures r.Ok? <==> forall i :: 0 <= i < |dbs| ==> GoodDb(lib, dbs[i])
    ensures r.Ok? ==> r.value == LowerDbs(lib, dbs)
  {
    var backupDbs: seq<Db> := [];
    for i := 0 to |dbs|
      invariant backupDbs == LowerDbs(lib, dbs[..i])
      invariant forall k :: 0 <= k < i ==> GoodDb(lib, dbs[k])
    {
      var d := LowerDb(lib, dbs[i]);
      if d.kind in {"dockerpostgres", "dockermysql"} && d.container == "" {
        return Err("DB container name cannot be empty");
      }
      backupDbs := backupDbs + [d];
    }
    assert dbs[..|dbs|] == dbs;
    r := Ok(backupDbs);
  }

  /** The records that load. */
  predicate Loadable(lib: Library, raw: RawProfile) {
    var kind := lib.lower(raw.kind);
    && raw.kind != "" && raw.name != "" && kind in {SFTP_SYNC, LOCAL, REMOTE}
    && (kind in {SFTP_SYNC, REMOTE} ==>
          lib.lower(raw.ssh.kind) in {"sshkey", "password", "sshagent"} && raw.ssh.host != "")
    && (kind in {LOCAL, REMOTE} ==> raw.dbs != [] || raw.dirs != [])
    && (forall i :: 0 <= i < |raw.dirs| ==> GoodDir(lib, kind, raw.dirs[i]))
    && (forall i :: 0 <= i < |raw.dbs| ==> GoodDb(lib, raw.dbs[i]))
  }

  /** What a loadable record loads to. */
  function Loaded(lib: Library, raw: RawProfile): Profile {
    WithPort(Profile(raw.name, lib.lower(raw.kind), raw.ssh.(kind := lib.lower(raw.ssh.kind)),
                     raw.dirs, LowerDbs(lib, raw.dbs), raw.destination))
  }

  method LoadProfileV1(lib: Library, raw: RawProfile) returns (r: Result<Profile, string>)
    ensures r.Ok? <==> Loadable(lib, raw)
    ensures r.Ok? ==> r.value == Loaded(lib, raw)
  {
    var created := CreateProfile(lib, raw);
    if created.Err? {
      return Err(created.error);
    }
    var draft := new Draft(created.value);
    var ok := draft.ValidateSshConfig();
    if !ok {
      return Err("invalid ssh configuration");
    }
    if draft.profile.kind in {LOCAL, REMOTE} && |raw.dbs| == 0 && |raw.dirs| == 0 {
      return Err("nothing to backup");
    }
    var dirs := ProcessDirectories(lib, raw.dirs, draft.profile.kind);
    if dirs.Err? {
      return Err(dirs.error);
    }
    draft.profile := draft.profile.(dirs := dirs.value);
    var dbs := ProcessDatabases(lib, raw.dbs);
    if dbs.Err? {
      return Err(dbs.error);
    }
    draft.profile := draft.profile.(dbs := dbs.value);
    r := Ok(draft.profile);
  }

  // ---------- what loads, and what it loads to ----------

  /** Field by field: the record's name, destination, directories with their exclude patterns, ssh host
      and user; its types in lower case; its databases under their names and with their containers; and
      the record's port, or 22 when there is none and the type connects. */
  lemma LoadedFields(lib: Library, raw: RawProfile)
    requires Loadable(lib, raw)
    ensures var p := Loaded(lib, raw);
            && p.name == raw.name && p.destination == raw.destination && p.dirs == raw.dirs
            && p.kind == lib.lower(raw.kind)
            && p.ssh.host == raw.ssh.host && p.ssh.user == raw.ssh.user && p.ssh.kind == lib.lower(raw.ssh.kind)
            && p.ssh.port == (if raw.ssh.port == 0 && lib.lower(raw.kind) in {"sftpsync", "remote"} then 22
                              else raw.ssh.port)
            && |p.dbs| == |raw.dbs|
            && forall i :: 0 <= i < |raw.dbs| ==>
                 && p.dbs[i].name == raw.dbs[i].name && p.dbs[i].container == raw.dbs[i].container
                 && p.dbs[i].kind == lib.lower(raw.dbs[i].kind)
  {
    forall i | 0 <= i < |raw.dbs|
      ensures LowerDbs(lib, raw.dbs)[i] == LowerDb(lib, raw.dbs[i])
    {
    }
  }

  /** The records that load, in terms of the texts in them. */
  lemma LoadsExactly(lib: Library, raw: RawProfile)
    ensures var kind := lib.lower(raw.kind);
            Loadable(lib, raw)
            <==> && raw.kind != "" && raw.name != "" && (kind == "local" || kind == "remote" || kind == "sftpsync")
                 && (kind != "local" ==>
                       raw.ssh.host != "" && lib.lower(raw.ssh.kind) in {"sshkey", "password", "sshagent"})
                 && (kind != "sftpsync" ==> |raw.dirs| + |raw.dbs| > 0)
                 && (forall d :: d in raw.dirs ==>
                       && d.path != "" && (kind == "sftpsync" ==> d.name != "")
                       && forall pattern :: pattern in d.exclude ==> lib.compiles(pattern))
                 && (forall db :: db in raw.dbs && lib.lower(db.kind) in {"dockermysql", "dockerpostgres"} ==>
                       db.container != "")
  {
    var kind := lib.lower(raw.kind);
    forall i | 0 <= i < |raw.dirs|
      ensures GoodDir(lib, kind, raw.dirs[i]) <==> GoodDirText(lib, kind, raw.dirs[i])
    {
    }
    if Loadable(lib, raw) {
      forall d | d in raw.dirs
        ensures GoodDirText(lib, kind, d)
      {
        var i :| 0 <= i < |raw.dirs| && raw.dirs[i] == d;
      }
    }
  }

  predicate GoodDirText(lib: Library, kind: string, d: RawDir) {
    && d.path != "" && (kind == "sftpsync" ==> d.name != "")
    && forall pattern :: pattern in d.exclude ==> lib.compiles(pattern)
  }

  // ---------- the guards of the run-time code ----------

  datatype Runner = RunLocal | RunRemote | RunSync

  /** `RunProfile`'s choice of run function; `None` is its unknown-type branch. */
  function Dispatch(p: Profile): Option<Runner> {
    if p.kind == LOCAL then Some(RunLocal)
    else if p.kind == REMOTE then Some(RunRemote)
    else if p.kind == SFTP_SYNC then Some(RunSync)
    else None
  }

  datatype Auth = Password | PrivateKey | SshAgent

  /** `GetAuthType` without its default branch, which would be `None`. */
  function AuthType(kind: string): Option<Auth> {
    if kind == "password" then Some(Password)
    else if kind == "sshkey" then Some(PrivateKey)
    else if kind == "sshagent" then Some(SshAgent)
    else None
  }

  /** For every profile that loads: dispatch knows its type, retention and sync never see an empty
      name, and connecting profiles have a known way to authenticate and a port. */
  lemma LoadedPassesGuards(lib: Library, raw: RawProfile)
    requires Loadable(lib, raw)
    ensures var p := Loaded(lib, raw);
            && Dispatch(p).Some?
            && p.name != ""
            && (Dispatch(p) == Some(RunSync) ==> forall i :: 0 <= i < |p.dirs| ==> p.dirs[i].name != "")
            && (Dispatch(p) in {Some(RunSync), Some(RunRemote)} ==>
                  AuthType(p.ssh.kind).Some? && p.ssh.port != 0 && p.ssh.host != "")
  {
  }

  /** Which type is run how, and which way to authenticate each ssh type stands for. */
  lemma TypesDispatched(lib: Library, raw: RawProfile)
    requires Loadable(lib, raw)
    ensures var p, kind, auth := Loaded(lib, raw), lib.lower(raw.kind), lib.lower(raw.ssh.kind);
            && (Dispatch(p) == Some(RunLocal) <==> kind == "local")
            && (Dispatch(p) == Some(RunRemote) <==> kind == "remote")
            && (Dispatch(p) == Some(RunSync) <==> kind == "sftpsync")
            && (AuthType(p.ssh.kind) == Some(Password) <==> auth == "password")
            && (AuthType(p.ssh.kind) == Some(PrivateKey) <==> auth == "sshkey")
            && (AuthType(p.ssh.kind) == Some(SshAgent) <==> auth == "sshagent")
  {
  }

  /** The database types the program defines. */
  const KNOWN_DATABASES := {"mysql", "dockermysql", "mariadb", "dockermariadb", "postgres", "dockerpostgres"}

  /** The dumps of a run in which the environment lets every dump of the profile's databases succeed. */
  ghost predicate DumpsOf(p: Profile, dbs: seq<ArchiveRun.DbJob>) {
    && |dbs| == |p.dbs|
    && forall i :: 0 <= i < |dbs| ==>
         dbs[i].name == p.dbs[i].name && dbs[i].kind == p.dbs[i].kind && !dbs[i].createFails && dbs[i].dump.Some?
  }

  /** A guard that loading leaves reachable is the one on database types. For every record that loads,
      the dumps of a run in which the environment lets each of them work all succeed, none taking the
      unknown-type branch, exactly when every database type of the record, lower-cased, is one of the six
      known ones. */
  lemma DatabaseGuardExact(lib: Library, raw: RawProfile, dbs: seq<ArchiveRun.DbJob>)
    requires Loadable(lib, raw) && DumpsOf(Loaded(lib, raw), dbs)
    ensures ArchiveRun.DumpsSucceed(dbs)
            <==> forall i :: 0 <= i < |raw.dbs| ==> lib.lower(raw.dbs[i].kind) in KNOWN_DATABASES
  {
    var p := Loaded(lib, raw);
    forall i | 0 <= i < |dbs|
      ensures ArchiveRun.DumpSucceeds(dbs[i]) <==> lib.lower(raw.dbs[i].kind) in KNOWN_DATABASES
    {
      assert dbs[i].kind == p.dbs[i].kind == lib.lower(raw.dbs[i].kind);
    }
    if ArchiveRun.DumpsSucceed(dbs) {
      forall i | 0 <= i < |raw.dbs|
        ensures lib.lower(raw.dbs[i].kind) in KNOWN_DATABASES
      {
        assert ArchiveRun.DumpSucceeds(dbs[i]);
      }
    }
  }

  const MARIADB_CONTAINER := "dockermariadb"

  predicate InContainer(kind: string) {
    kind in {"dockermysql", MARIADB_CONTAINER, "dockerpostgres"}
  }

  /** The other one is on container names, which loading checks for two of the three kinds of database
      that run in a container: every such database of a loaded profile has a container name exactly when
      those of the third kind have one in the record. */
  lemma ContainerGuardExact(lib: Library, raw: RawProfile)
    requires Loadable(lib, raw)
    ensures var p := Loaded(lib, raw);
            (forall i :: 0 <= i < |p.dbs| && InContainer(p.dbs[i].kind) ==> p.dbs[i].container != "")
            <==> (forall i :: 0 <= i < |raw.dbs| && lib.lower(raw.dbs[i].kind) == MARIADB_CONTAINER ==>
                    raw.dbs[i].container != "")
  {
    var p := Loaded(lib, raw);
    forall i | 0 <= i < |raw.dbs|
      ensures p.dbs[i].kind == lib.lower(raw.dbs[i].kind) && p.dbs[i].container == raw.dbs[i].container
      ensures GoodDb(lib, raw.dbs[i])
    {
    }
  }

  /** Both are reachable: a record that loads with a database type for which the backup has no branch,
      and with a MariaDB container that has no name. */
  lemma DatabaseTypeUnchecked(lib: Library, ssh: Ssh, destination: Destination)
    requires lib.lower(LOCAL) == LOCAL && lib.lower("oracle") == "oracle"
    requires lib.lower(MARIADB_CONTAINER) == MARIADB_CONTAINER
    ensures var raw := RawProfile("a", LOCAL, ssh, [],
                                  [Db("x", "oracle", ""), Db("y", MARIADB_CONTAINER, "")], destination);
            && Loadable(lib, raw)
            && lib.lower(raw.dbs[0].kind) !in KNOWN_DATABASES
            && ArchiveRun.DumpFolder(Loaded(lib, raw).dbs[0].kind).None?
            && Loaded(lib, raw).dbs[1].container == ""
  {
  }

  // ---------- loading a directory ----------

  function LoadedFrom(files: seq<string>, load: string -> Result<Profile, string>): seq<Profile> {
    if files == [] then []
    else
      var front, last := LoadedFrom(files[..|files| - 1], load), load(files[|files| - 1]);
      if last.Ok? then front + [last.value] else front
  }

  function FailedFrom(files: seq<string>, load: string -> Result<Profile, string>): seq<(string, string)> {
    if files == [] then []
    else
      var front, file := FailedFrom(files[..|files| - 1], load), files[|files| - 1];
      if load(file).Err? then front + [(file, load(file).error)] else front
  }

  const PROFILE_EXT := ".backup.yaml"

  /** A place met while walking the profile directory. */
  datatype Found = Found(path: string, name: string, isDir: bool)

  /** The candidate profile files, in walk order. */
  function Candidates(found: seq<Found>): seq<string> {
    if found == [] then []
    else
      var front, last := Candidates(found[..|found| - 1]), found[|found| - 1];
      if !last.isDir && HasSuffix(last.name, PROFILE_EXT) then front + [last.path] else front
  }

  /** The candidates are the paths of all files found whose names end in `.backup.yaml`, in walk order. */
  lemma {:induction false} CandidatesAre(found: seq<Found>) returns (at: seq<nat>, files: seq<Found>)
    ensures PicksInOrder(found, IsCandidate, files, at)
    ensures |Candidates(found)| == |files| && forall i :: 0 <= i < |files| ==> Candidates(found)[i] == files[i].path
  {
    at, files := [], [];
    if found != [] {
      var front, last := found[..|found| - 1], found[|found| - 1];
      at, files := CandidatesAre(front);
      PickLast(found, IsCandidate, files, at);
      SuffixIsEnd(last.name, ".backup.yaml");
      if IsCandidate(last) {
        at, files := at + [|found| - 1], files + [last];
      }
    }
  }

  ghost predicate IsCandidate(f: Found) {
    !f.isDir && exists stem :: f.name == stem + ".backup.yaml"
  }

  /** `stat` is what `Stat` says of the directory, `found` what walking it meets. A directory that
      cannot be used yields no profiles and an error of its own. */
  method LoadProfiles(stat: Stat, found: seq<Found>, load: string -> Result<Profile, string>)
    returns (profiles: seq<Profile>, errs: seq<(string, string)>, ok: bool)
    ensures !stat.IsDirectory? ==> profiles == [] && errs == [] && !ok
    ensures stat.IsDirectory? ==>
              profiles == LoadedFrom(Candidates(found), load) && errs == FailedFrom(Candidates(found), load)
    ensures ok <==> stat.IsDirectory? && forall f :: f in Candidates(found) ==> load(f).Ok?
  {
    if !stat.IsDirectory? {
      return [], [], false;
    }
    var files := Collect(found);
    profiles, errs := LoadEach(files, load);
    ok := |errs| == 0;
    NoErrors(files, load);
  }

  method Collect(found: seq<Found>) returns (files: seq<string>)
    ensures files == Candidates(found)
  {
    files := [];
    for i := 0 to |found|
      invariant files == Candidates(found[..i])
    {
      assert found[..i + 1][..i] == found[..i];
      if !found[i].isDir {
        if HasSuffix(found[i].name, PROFILE_EXT) {
          files := files + [found[i].path];
        }
      }
    }
    assert found[..|found|] == found;
  }

  method LoadEach(files: seq<string>, load: string -> Result<Profile, string>)
    returns (profiles: seq<Profile>, errs: seq<(string, string)>)
    ensures profiles == LoadedFrom(files, load) && errs == FailedFrom(files, load)
  {
    profiles, errs := [], [];
    for i := 0 to |files|
      invariant profiles == LoadedFrom(files[..i], load) && errs == FailedFrom(files[..i], load)
    {
      assert files[..i + 1][..i] == files[..i];
      var p := load(files[i]);
      if p.Err? {
        errs := errs + [(files[i], p.error)];
        continue;
      }
      profiles := profiles + [p.value];
    }
    assert files[..|files|] == files;
  }

  /** No candidate file is lost: each one is, in order, the next loaded profile or the next error. */
  lemma {:induction false} EveryFileAccounted(files: seq<string>, load: string -> Result<Profile, string>, i: nat)
    requires i < |files|
    ensures |LoadedFrom(files, load)| + |FailedFrom(files, load)| == |files|
    ensures var p, e := |LoadedFrom(files[..i], load)|, |FailedFrom(files[..i], load)|;
            match load(files[i])
            case Ok(profile) => p < |LoadedFrom(files, load)| && LoadedFrom(files, load)[p] == profile
            case Err(error) => e < |FailedFrom(files, load)| && FailedFrom(files, load)[e] == (files[i], error)
  {
    var front := files[..|files| - 1];
    if front != [] {
      EveryFileAccounted(front, load, if i < |front| then i else 0);
    }
    if i < |front| {
      assert front[..i] == files[..i];
    }
  }

  // ---------- running them all ----------

  class BackupRunner {
    var profiles: seq<Profile>

    constructor ()
      ensures profiles == []
    {
      profiles := [];
    }

    method LoadProfilesDir(stat: Stat, found: seq<Found>, load: string -> Result<Profile, string>) returns (ok: bool)
      modifies this
      ensures profiles == old(profiles) + if stat.IsDirectory? then LoadedFrom(Candidates(found), load) else []
      ensures ok <==> stat.IsDirectory? && forall f :: f in Candidates(found) ==> load(f).Ok?
    {
      var loaded, errs;
      loaded, errs, ok := LoadProfiles(stat, found, load);
      profiles := profiles + loaded;
    }

    /** Every profile runs, whatever happened to the ones before it; the result is an error exactly
        when one of them failed. `outcome` says how the run at each position ends. */
    method Run(outcome: nat -> bool) returns (ok: bool, failed: seq<nat>)
      ensures ok <==> forall i :: 0 <= i < |profiles| ==> Dispatch(profiles[i]).Some? && outcome(i)
      ensures forall i: nat :: i in failed <==> i < |profiles| && !(Dispatch(profiles[i]).Some? && outcome(i))
      ensures forall j, k :: 0 <= j < k < |failed| ==> failed[j] < failed[k]
    {
      failed := [];
      for i := 0 to |profiles|
        invariant forall k: nat :: k in failed <==> k < i && !(Dispatch(profiles[k]).Some? && outcome(k))
        invariant forall j, k :: 0 <= j < k < |failed| ==> failed[j] < failed[k]
      {
        assert forall j :: 0 <= j < |failed| ==> failed[j] in failed;
        if Dispatch(profiles[i]).None? || !outcome(i) {
          failed := failed + [i];
        }
      }
      ok := |failed| == 0;
      assert |failed| > 0 ==> failed[0] in failed;
    }
  }

  lemma {:induction false} NoErrors(files: seq<string>, load: string -> Result<Profile, string>)
    ensures |FailedFrom(files, load)| == 0 <==> forall f :: f in files ==> load(f).Ok?
  {
    if files != [] {
      var front := files[..|files| - 1];
      NoErrors(front, load);
      assert files == front + [files[|files| - 1]];
    }
  }
}
