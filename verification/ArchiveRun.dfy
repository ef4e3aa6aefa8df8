/** `backupLocal`: one archive from the directories and the database dumps of a profile. */
module ArchiveRun {
  import opened Text
  import opened FileTree
  import opened Archive

  // ---------- databases ----------

  /** One database: what its type names, and how writing its dump goes; `dump` is `None` when the
      dump fails after its entry was started. */
  datatype DbJob = DbJob(name: string, kind: string, createFails: bool, dump: Option<string>)

  /** The folder of a dump, by database type; `None` for a type the backup does not know. */
  function DumpFolder(kind: string): Option<string> {
    if kind in {"mysql", "mariadb", "dockermariadb", "dockermysql"} then Some("_mysqldump")
    else if kind in {"postgres", "dockerpostgres"} then Some("_postgres")
    else None
  }

  /** The cleaning `filepath.Join` does on a relative path: empty and `.` components go, `..` takes
      away the component before it. */
  function Resolve(parts: Path, front: Path): Path {
    if parts == [] then front
    else if parts[0] == "" || parts[0] == "." then Resolve(parts[1..], front)
    else if parts[0] == ".." && front != [] && front[|front| - 1] != ".." then
      Resolve(parts[1..], front[..|front| - 1])
    else Resolve(parts[1..], front + [parts[0]])
  }

  function DumpName(folder: string, name: string): string {
    var parts := Resolve(Split(folder + "/" + (name + ".dump.sql"), '/'), []);
    if parts == [] then "." else Join(parts, '/')
  }

  // ---------- what cleaning a path does ----------

  lemma {:induction false} ResolveGood(parts: Path, front: Path)
    requires GoodPath(parts)
    ensures Resolve(parts, front) == front + parts
  {
    if parts != [] {
      assert GoodName(parts[0]);
      ResolveGood(parts[1..], front + [parts[0]]);
      assert front + [parts[0]] + parts[1..] == front + parts;
    }
  }

  lemma {:induction false} ResolveConcat(a: Path, b: Path, front: Path)
    ensures Resolve(a + b, front) == Resolve(b, Resolve(a, front))
  {
    if a == [] {
      assert a + b == b;
    } else {
      assert (a + b)[0] == a[0] && (a + b)[1..] == a[1..] + b;
      var next := if a[0] == "" || a[0] == "." then front
                  else if a[0] == ".." && front != [] && front[|front| - 1] != ".." then front[..|front| - 1]
                  else front + [a[0]];
      ResolveConcat(a[1..], b, next);
    }
  }

  /** Cleaning drops empty components and `.`, lets `..` take away a name before it, and leaves names,
      and a `..` with no name before it, alone: nothing else happens to a path. */
  lemma CleaningRules(front: Path, name: string, rest: Path)
    requires GoodName(name)
    ensures Resolve([], front) == front
    ensures Resolve([""] + rest, front) == Resolve(["."] + rest, front) == Resolve(rest, front)
    ensures Resolve([name, ".."] + rest, front) == Resolve(rest, front)
    ensures Resolve([name] + rest, front) == Resolve(rest, front + [name])
    ensures front == [] || front[|front| - 1] == ".." ==>
              Resolve([".."] + rest, front) == Resolve(rest, front + [".."])
  {
    assert ([name, ".."] + rest)[1..] == [".."] + rest;
    assert ([".."] + rest)[1..] == rest && (front + [name])[..|front|] == front;
    assert ([""] + rest)[1..] == rest && (["."] + rest)[1..] == rest && ([name] + rest)[1..] == rest;
  }

  /** Without a separator in the database's name there is nothing to clean. */
  lemma PlainDumpName(folder: string, name: string)
    requires GoodName(folder) && '/' !in name
    ensures DumpName(folder, name) == Join([folder, name + ".dump.sql"], '/')
    ensures Split(DumpName(folder, name), '/') == [folder, name + ".dump.sql"]
  {
    var file := name + ".dump.sql";
    var parts := [folder, file];
    assert |file| >= 9 && '/' !in file;
    SplitAtom(folder, '/');
    SplitAtom(file, '/');
    SplitConcat(folder, file, '/');
    ResolveGood(parts, []);
    assert [] + parts == parts;
    SplitJoin(parts, '/');
  }

  function DumpEntry(db: DbJob): ZipEntry {
    ZipEntry(DumpName(DumpFolder(db.kind).GetOr(""), db.name), Data(db.dump.GetOr("")))
  }

  /** An entry holds the dump of a database: all of its text and, when the name has no separator, under
      `_mysqldump/` for the MySQL and MariaDB kinds and `_postgres/` for the others. */
  ghost predicate HoldsDump(e: ZipEntry, db: DbJob) {
    && db.kind in {"mysql", "dockermysql", "mariadb", "dockermariadb", "postgres", "dockerpostgres"}
    && db.dump.Some? && e.body == Data(db.dump.value)
    && ('/' !in db.name ==>
          e.name == (if db.kind in {"postgres", "dockerpostgres"} then "_postgres/" else "_mysqldump/")
                    + (db.name + ".dump.sql"))
  }

  lemma DumpIsHeld(db: DbJob)
    requires DumpSucceeds(db)
    ensures HoldsDump(DumpEntry(db), db)
  {
    if '/' !in db.name {
      var folder, file := DumpFolder(db.kind).value, db.name + ".dump.sql";
      PlainDumpName(folder, db.name);
      assert Join([folder, file][1..], '/') == file;
      assert Join([folder, file], '/') == folder + ['/'] + file;
    }
  }

  predicate DumpSucceeds(db: DbJob) {
    DumpFolder(db.kind).Some? && !db.createFails && db.dump.Some?
  }

  method BackupLocalDatabase(h: Handler, db: DbJob) returns (ok: bool)
    modifies h`entries
    ensures old(h.entries) <= h.entries
    ensures ok <==> h.isOpen && DumpSucceeds(db)
    ensures ok ==> h.entries == old(h.entries) + [DumpEntry(db)]
    ensures ok ==> |h.entries| == |old(h.entries)| + 1 && HoldsDump(h.entries[|h.entries| - 1], db)
    ensures !ok ==> Stopped(old(h.entries), h.entries, [DumpEntry(db)])
  {
    var folder := DumpFolder(db.kind);
    if folder.None? {
      StoppedFirst(h.entries, h.entries, DumpEntry(db), Data(""));
      return false;
    }
    ok := h.FileWriter(DumpName(folder.value, db.name), db.createFails);
    if !ok || db.dump.None? {
      StoppedFirst(old(h.entries), h.entries, DumpEntry(db), Data(""));
      return false;
    }
    h.Fill(db.dump.value);
    DumpIsHeld(db);
  }

  // ---------- the whole archive ----------

  datatype DirJob = DirJob(dir: BackupPath, root: RootState, follow: Follow, faults: CopyFaults)

  function Walked(job: DirJob): Option<(Path, Node)> {
    WalkedRoot(job.dir.path, job.root)
  }

  function DirPart(job: DirJob): seq<ZipEntry> {
    if Walked(job).None? then [] else LocalEntries(job.dir, Walked(job).value.0, Walked(job).value.1)
  }

  function DirParts(jobs: seq<DirJob>): seq<ZipEntry> {
    if jobs == [] then [] else DirPart(jobs[0]) + DirParts(jobs[1..])
  }

  function DumpParts(dbs: seq<DbJob>): seq<ZipEntry> {
    if dbs == [] then [] else [DumpEntry(dbs[0])] + DumpParts(dbs[1..])
  }

  /** Every entry of a complete archive, in order. */
  function ArchiveOf(dirs: seq<DirJob>, dbs: seq<DbJob>): seq<ZipEntry> {
    DirParts(dirs) + DumpParts(dbs)
  }

  predicate DirsSucceed(dirs: seq<DirJob>) {
    forall i :: 0 <= i < |dirs| ==> CopySucceeds(dirs[i].dir, dirs[i].root, dirs[i].follow, dirs[i].faults)
  }

  predicate DumpsSucceed(dbs: seq<DbJob>) {
    forall i :: 0 <= i < |dbs| ==> DumpSucceeds(dbs[i])
  }

  /** The loop over the directories of the profile. */
  method CopyDirs(h: Handler, dirs: seq<DirJob>) returns (ok: bool)
    requires h.isOpen
    modifies h`entries
    ensures old(h.entries) <= h.entries
    ensures ok <==> DirsSucceed(dirs)
    ensures ok ==> h.entries == old(h.entries) + DirParts(dirs)
    ensures !ok ==> Stopped(old(h.entries), h.entries, DirParts(dirs))
  {
    ghost var todo := DirParts(dirs);
    assert dirs[0..] == dirs;
    for i := 0 to |dirs|
      invariant old(h.entries) <= h.entries
      invariant forall k :: 0 <= k < i ==> CopySucceeds(dirs[k].dir, dirs[k].root, dirs[k].follow, dirs[k].faults)
      invariant h.entries + DirParts(dirs[i..]) == old(h.entries) + todo
    {
      ghost var before, part, rest := h.entries, DirPart(dirs[i]), DirParts(dirs[i + 1..]);
      assert DirParts(dirs[i..]) == part + rest by {
        assert dirs[i..][0] == dirs[i] && dirs[i..][1..] == dirs[i + 1..];
      }
      ok := CopyLocalFiles(h, dirs[i].dir, dirs[i].root, dirs[i].follow, dirs[i].faults);
      if !ok {
        CopyStopped(dirs[i], before, h.entries);
        StoppedLater(old(h.entries), before, h.entries, part, rest, todo);
        return false;
      }
      Advance(before, h.entries, part, rest, old(h.entries) + todo);
    }
    ok := true;
  }

  lemma CopyStopped(job: DirJob, before: seq<ZipEntry>, after: seq<ZipEntry>)
    requires if Walked(job).None? then after == before else Stopped(before, after, DirPart(job))
    ensures Stopped(before, after, DirPart(job))
  {
    if Walked(job).None? {
      assert StoppedAt(before, after, [], 0);
    }
  }

  /** The loop over the databases of the profile. */
  method DumpDbs(h: Handler, dbs: seq<DbJob>) returns (ok: bool)
    requires h.isOpen
    modifies h`entries
    ensures old(h.entries) <= h.entries
    ensures ok <==> DumpsSucceed(dbs)
    ensures ok ==> h.entries == old(h.entries) + DumpParts(dbs)
    ensures !ok ==> Stopped(old(h.entries), h.entries, DumpParts(dbs))
  {
    ghost var todo := DumpParts(dbs);
    assert dbs[0..] == dbs;
    for i := 0 to |dbs|
      invariant old(h.entries) <= h.entries
      invariant forall k :: 0 <= k < i ==> DumpSucceeds(dbs[k])
      invariant h.entries + DumpParts(dbs[i..]) == old(h.entries) + todo
    {
      ghost var before, part, rest := h.entries, [DumpEntry(dbs[i])], DumpParts(dbs[i + 1..]);
      assert DumpParts(dbs[i..]) == part + rest by {
        assert dbs[i..][0] == dbs[i] && dbs[i..][1..] == dbs[i + 1..];
      }
      ok := BackupLocalDatabase(h, dbs[i]);
      if !ok {
        StoppedLater(old(h.entries), before, h.entries, part, rest, todo);
        return false;
      }
      Advance(before, h.entries, part, rest, old(h.entries) + todo);
    }
    ok := true;
  }

  lemma StoppedInDirs(dirs: seq<DirJob>, dbs: seq<DbJob>, after: seq<ZipEntry>)
    requires Stopped([], after, DirParts(dirs))
    ensures Stopped([], after, ArchiveOf(dirs, dbs))
  {
    StoppedLater([], [], after, DirParts(dirs), DumpParts(dbs), ArchiveOf(dirs, dbs));
  }

  lemma StoppedInDumps(dirs: seq<DirJob>, dbs: seq<DbJob>, after: seq<ZipEntry>)
    requires Stopped(DirParts(dirs), after, DumpParts(dbs))
    ensures Stopped([], after, ArchiveOf(dirs, dbs))
  {
    assert DumpParts(dbs) + [] == DumpParts(dbs);
    StoppedLater([], DirParts(dirs), after, DumpParts(dbs), [], ArchiveOf(dirs, dbs));
  }

  /** The last entries of an archive hold the dumps, in order. */
  ghost predicate EndsWithDumps(es: seq<ZipEntry>, dbs: seq<DbJob>) {
    |es| >= |dbs| && HoldsDumps(es[|es| - |dbs|..], dbs)
  }

  ghost predicate HoldsDumps(es: seq<ZipEntry>, dbs: seq<DbJob>) {
    |es| == |dbs| && forall j :: 0 <= j < |es| ==> HoldsDump(es[j], dbs[j])
  }

  lemma DumpPartsHeld(dbs: seq<DbJob>)
    requires DumpsSucceed(dbs)
    ensures HoldsDumps(DumpParts(dbs), dbs)
  {
    DumpPartsAt(dbs);
    forall j | 0 <= j < |dbs|
      ensures HoldsDump(DumpParts(dbs)[j], dbs[j])
    {
      DumpIsHeld(dbs[j]);
    }
  }

  lemma DumpsAreHeld(dirs: seq<DirJob>, dbs: seq<DbJob>)
    requires DumpsSucceed(dbs)
    ensures EndsWithDumps(ArchiveOf(dirs, dbs), dbs)
  {
    DumpPartsHeld(dbs);
    var all, dumps := ArchiveOf(dirs, dbs), DumpParts(dbs);
    assert all[|all| - |dumps|..] == dumps;
  }

  /** The archive is complete and holds nothing else: the entries of each directory and of each dump. */
  lemma WholeArchive(dirs: seq<DirJob>, dbs: seq<DbJob>, e: ZipEntry)
    ensures e in ArchiveOf(dirs, dbs)
            <==> || (exists i :: 0 <= i < |dirs| && e in DirPart(dirs[i]))
                 || (exists j :: 0 <= j < |dbs| && e == DumpEntry(dbs[j]))
  {
    InSomeDir(dirs, e);
    DumpPartsAt(dbs);
    if e in DumpParts(dbs) {
      var j :| 0 <= j < |DumpParts(dbs)| && DumpParts(dbs)[j] == e;
      assert e == DumpEntry(dbs[j]);
    }
    if j :| 0 <= j < |dbs| && e == DumpEntry(dbs[j]) {
      assert DumpParts(dbs)[j] == e;
    }
  }

  lemma {:induction false} InSomeDir(dirs: seq<DirJob>, e: ZipEntry)
    ensures e in DirParts(dirs) <==> exists i :: 0 <= i < |dirs| && e in DirPart(dirs[i])
  {
    if dirs != [] {
      var part, rest := DirPart(dirs[0]), DirParts(dirs[1..]);
      InSomeDir(dirs[1..], e);
      assert e in DirParts(dirs) <==> e in part || e in rest;
      if i :| 0 <= i < |dirs| && e in DirPart(dirs[i]) {
        assert i > 0 ==> dirs[1..][i - 1] == dirs[i];
      }
      if i :| 0 <= i < |dirs[1..]| && e in DirPart(dirs[1..][i]) {
        assert dirs[i + 1] == dirs[1..][i];
      }
    }
  }

  /** Returns the handler so that what reached the archive can be seen; none when it was not created.
      The backup succeeds exactly when the zip is created, every directory is there and copied without
      a failure, and every database has a known type and a dump. A failure to write the archive out when
      it is closed goes unnoticed: the backup succeeds, but the file does not hold the entries. */
  method BackupLocal(zipPath: string, createFails: bool, dirs: seq<DirJob>, dbs: seq<DbJob>, flushFails: bool)
    returns (ok: bool, h: Handler?)
    ensures h != null ==> fresh(h)
    ensures h == null <==> !HasSuffix(zipPath, ".zip") || createFails
    ensures ok <==> h != null && DirsSucceed(dirs) && DumpsSucceed(dbs)
    ensures ok ==> !h.isOpen && h.entries == ArchiveOf(dirs, dbs) && h.stored == !flushFails
    ensures ok ==> EndsWithDumps(h.entries, dbs)
    ensures h != null && !ok ==> h.isOpen && !h.stored && Stopped([], h.entries, ArchiveOf(dirs, dbs))
  {
    if !HasSuffix(zipPath, ".zip") || createFails {
      return false, null;
    }
    h := new Handler();
    ok := CopyDirs(h, dirs);
    if !ok {
      StoppedInDirs(dirs, dbs, h.entries);
      return false, h;
    }
    assert h.entries == DirParts(dirs);
    ok := DumpDbs(h, dbs);
    if !ok {
      StoppedInDumps(dirs, dbs, h.entries);
      return false, h;
    }
    assert h.entries == ArchiveOf(dirs, dbs);
    assert EndsWithDumps(h.entries, dbs) by {
      DumpsAreHeld(dirs, dbs);
    }
    h.Close(flushFails);
  }

  // ---------- no name twice ----------

  /** The first component of an entry's name. */
  function Top(e: ZipEntry): string {
    Split(e.name, '/')[0]
  }

  predicate GoodJob(job: DirJob) {
    && Walked(job).Some? && WellNamed(Walked(job).value.1)
    && GoodName(BaseOf(job.dir.path))
  }

  lemma DirTop(job: DirJob, e: ZipEntry)
    requires GoodJob(job) && e in DirPart(job)
    ensures Top(e) == BaseOf(job.dir.path)
  {
    var base, root, node := BaseOf(job.dir.path), Walked(job).value.0, Walked(job).value.1;
    var excluded := Below(job.dir, root);
    var leaves := Leaves(node, [], excluded);
    var i :| 0 <= i < |leaves| && DirPart(job)[i] == e;
    LeafPlace(node, excluded, leaves[i]);
    SplitJoin([base] + leaves[i].rel, '/');
  }

  lemma DumpTop(db: DbJob)
    requires DumpFolder(db.kind).Some? && '/' !in db.name
    ensures Split(DumpEntry(db).name, '/') == [DumpFolder(db.kind).value, db.name + ".dump.sql"]
    ensures Top(DumpEntry(db)) in {"_mysqldump", "_postgres"}
  {
    PlainDumpName(DumpFolder(db.kind).value, db.name);
  }

  lemma DistinctConcat(a: seq<ZipEntry>, b: seq<ZipEntry>)
    requires NamesDistinct(a) && NamesDistinct(b)
    requires forall e, f :: e in a && f in b ==> e.name != f.name
    ensures NamesDistinct(a + b)
  {
  }

  /** Directories whose base names are ordinary and pairwise distinct. */
  ghost predicate DistinctDirs(dirs: seq<DirJob>) {
    && (forall i :: 0 <= i < |dirs| ==> GoodJob(dirs[i]))
    && (forall i, j :: 0 <= i < j < |dirs| ==> BaseOf(dirs[i].dir.path) != BaseOf(dirs[j].dir.path))
  }

  lemma {:induction false} DirPartsMember(dirs: seq<DirJob>, e: ZipEntry) returns (i: nat)
    requires e in DirParts(dirs)
    ensures i < |dirs| && e in DirPart(dirs[i])
  {
    var part, rest := DirPart(dirs[0]), DirParts(dirs[1..]);
    assert e in part + rest;
    if e in part {
      i := 0;
    } else {
      var j := DirPartsMember(dirs[1..], e);
      assert dirs[1..][j] == dirs[j + 1];
      i := j + 1;
    }
  }

  lemma DirPartsTop(dirs: seq<DirJob>, e: ZipEntry) returns (i: nat)
    requires e in DirParts(dirs) && forall i :: 0 <= i < |dirs| ==> GoodJob(dirs[i])
    ensures i < |dirs| && Top(e) == BaseOf(dirs[i].dir.path)
  {
    i := DirPartsMember(dirs, e);
    DirTop(dirs[i], e);
  }

  lemma {:induction false} DirPartsDistinct(dirs: seq<DirJob>)
    requires DistinctDirs(dirs)
    ensures NamesDistinct(DirParts(dirs))
  {
    if dirs != [] {
      var first, rest := dirs[0], dirs[1..];
      DirPartsDistinct(rest);
      var (root, node) := Walked(first).value;
      LeafNamesDistinct(node, Below(first.dir, root), BaseOf(first.dir.path), LocalBody);
      forall e, f | e in DirPart(first) && f in DirParts(rest)
        ensures e.name != f.name
      {
        var i := DirPartsTop(rest, f);
        DirTop(first, e);
        assert rest[i] == dirs[i + 1];
      }
      DistinctConcat(DirPart(first), DirParts(rest));
    }
  }

  lemma {:induction false} DumpPartsAt(dbs: seq<DbJob>)
    ensures |DumpParts(dbs)| == |dbs|
    ensures forall i :: 0 <= i < |dbs| ==> DumpParts(dbs)[i] == DumpEntry(dbs[i])
  {
    if dbs != [] {
      DumpPartsAt(dbs[1..]);
    }
  }

  /** Databases of known types with plain names that are distinct within each dump folder. */
  ghost predicate DistinctDbs(dbs: seq<DbJob>) {
    && (forall i :: 0 <= i < |dbs| ==> DumpFolder(dbs[i].kind).Some? && '/' !in dbs[i].name)
    && (forall i, j :: 0 <= i < j < |dbs| && DumpFolder(dbs[i].kind) == DumpFolder(dbs[j].kind) ==>
          dbs[i].name != dbs[j].name)
  }

  lemma SameDump(db: DbJob, other: DbJob)
    requires DumpFolder(db.kind).Some? && '/' !in db.name
    requires DumpFolder(other.kind).Some? && '/' !in other.name
    requires DumpEntry(db).name == DumpEntry(other).name
    ensures DumpFolder(db.kind) == DumpFolder(other.kind) && db.name == other.name
  {
    DumpTop(db);
    DumpTop(other);
    var a, b := db.name + ".dump.sql", other.name + ".dump.sql";
    assert [DumpFolder(db.kind).value, a][1] == [DumpFolder(other.kind).value, b][1];
    assert db.name == a[..|a| - 9] && other.name == b[..|b| - 9];
  }

  /** No entry name occurs twice in an archive when the directories' base names are ordinary, distinct
      and not those of the dump folders, and database names are distinct within each folder. */
  lemma ArchiveNamesDistinct(dirs: seq<DirJob>, dbs: seq<DbJob>)
    requires DistinctDirs(dirs) && DistinctDbs(dbs)
    requires forall i :: 0 <= i < |dirs| ==> BaseOf(dirs[i].dir.path) !in {"_mysqldump", "_postgres"}
    ensures NamesDistinct(ArchiveOf(dirs, dbs))
  {
    DirPartsDistinct(dirs);
    DumpPartsAt(dbs);
    forall i, j | 0 <= i < j < |dbs|
      ensures DumpParts(dbs)[i].name != DumpParts(dbs)[j].name
    {
      if DumpEntry(dbs[i]).name == DumpEntry(dbs[j]).name {
        SameDump(dbs[i], dbs[j]);
      }
    }
    forall e, f | e in DirParts(dirs) && f in DumpParts(dbs)
      ensures e.name != f.name
    {
      var i := DirPartsTop(dirs, e);
      var j :| 0 <= j < |dbs| && DumpParts(dbs)[j] == f;
      DumpTop(dbs[j]);
    }
    DistinctConcat(DirParts(dirs), DumpParts(dbs));
  }
}
