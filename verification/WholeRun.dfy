/** A local run with its archive: `LocalRun` says what becomes of the zip file, `ArchiveRun` which
    entries it holds. */
module WholeRun {
  import opened Text
  import opened Calendar
  import opened BackupName
  import opened Store
  import opened Expurge
  import opened LocalRun
  import Archive
  import ArchiveRun

  /** Whether everything the profile lists goes into the archive. */
  ghost predicate Complete(dirs: seq<ArchiveRun.DirJob>, dbs: seq<ArchiveRun.DbJob>) {
    ArchiveRun.DirsSucceed(dirs) && ArchiveRun.DumpsSucceed(dbs)
  }

  /** The run outcome with the archive in place of opaque text: `encode` gives the bytes of a zip. */
  ghost function ArchiveOutcome(entries: map<string, Entry>, name: ProfileName, dest: Destination, now: DateTime,
                                dirs: seq<ArchiveRun.DirJob>, dbs: seq<ArchiveRun.DbJob>,
                                encode: seq<Archive.ZipEntry> -> string, partial: string, faults: RunFaults): Outcome
    requires Printable(now)
  {
    RunOutcome(entries, name, dest, now, encode(ArchiveRun.ArchiveOf(dirs, dbs)), partial,
               faults.(backupFails := !Complete(dirs, dbs)))
  }

  lemma ZipNameIsZip(name: ProfileName, now: DateTime)
    requires Printable(now)
    ensures HasSuffix(ZipName(name, now), ".zip")
  {
    NameRoundTrip(name, now);
    MatchIsZip(name, ZipName(name, now));
  }

  /** Of the environment's decisions, whether the backup itself fails is no longer one: it follows from
      the directories and databases. */
  method RunLocal(dir: Directory, name: ProfileName, dest: Destination, now: DateTime,
                  dirs: seq<ArchiveRun.DirJob>, dbs: seq<ArchiveRun.DbJob>,
                  encode: seq<Archive.ZipEntry> -> string, partial: string, faults: RunFaults) returns (ok: bool)
    requires Printable(now)
    modifies dir
    ensures Outcome(dir.entries, ok)
            == ArchiveOutcome(old(dir.entries), name, dest, now, dirs, dbs, encode, partial, faults)
  {
    if faults.prepareFails {
      return false;
    }
    var zip := ZipName(name, now);
    ZipNameIsZip(name, now);
    var blocked := faults.openFails || (zip in dir.entries && dir.entries[zip].Subdir?);
    var built, h := ArchiveRun.BackupLocal(zip, blocked, dirs, dbs, faults.closing.Torn?);
    var archive := if built then encode(h.entries) else "";
    ok := RunLocalProfile(dir, name, dest, now, archive, partial, faults.(backupFails := !built));
  }

  ghost predicate NothingElseFails(name: ProfileName, faults: RunFaults) {
    && name != "" && !faults.prepareFails && !faults.openFails && !faults.chownFails && !faults.chmodFails
    && Clean(faults.expurge)
  }

  /** The zip's name is free, or that of a file that will be overwritten. */
  ghost predicate CanWrite(entries: map<string, Entry>, zip: string) {
    zip in entries ==> entries[zip].File?
  }

  /** When nothing else fails, the run succeeds exactly if every directory and every database can be
      backed up: a failure to write the archive out when it is closed makes no difference. So the zip of
      a successful run, if retention kept it, holds exactly the entries of all directories and dumps if
      and only if closing it did not tear it. */
  lemma ZipHoldsArchive(entries: map<string, Entry>, name: ProfileName, dest: Destination, now: DateTime,
                        dirs: seq<ArchiveRun.DirJob>, dbs: seq<ArchiveRun.DbJob>,
                        encode: seq<Archive.ZipEntry> -> string, partial: string, faults: RunFaults)
    requires Printable(now)
    ensures var zip, whole := ZipName(name, now), encode(ArchiveRun.ArchiveOf(dirs, dbs));
            var out := ArchiveOutcome(entries, name, dest, now, dirs, dbs, encode, partial, faults);
            && (out.ok ==> Complete(dirs, dbs))
            && (out.ok && zip in out.entries ==>
                  (out.entries[zip] == File(whole)
                   <==> faults.closing.Flushed? || faults.closing.written == whole))
            && (NothingElseFails(name, faults) && CanWrite(entries, zip) ==> (out.ok <==> Complete(dirs, dbs)))
  {
    var zip, archive := ZipName(name, now), encode(ArchiveRun.ArchiveOf(dirs, dbs));
    var faults' := faults.(backupFails := !Complete(dirs, dbs));
    RunEndings(entries, name, dest, now, archive, partial, faults');
    if NothingElseFails(name, faults) {
      CleanExpurge(Added(entries, name, now, archive, faults.closing), dest.keep, name, faults.expurge);
    }
  }

  /** What that may cost: with `keep` 1 and one older backup, a run in which only closing the archive
      fails, as on a full disk, succeeds and leaves nothing but its torn zip. */
  lemma TornZipReplaces(name: ProfileName, existing: DateTime, content: string, now: DateTime,
                        dirs: seq<ArchiveRun.DirJob>, dbs: seq<ArchiveRun.DbJob>,
                        encode: seq<Archive.ZipEntry> -> string, partial: string, faults: RunFaults)
    requires Printable(existing) && Printable(now) && Earlier(existing, now)
    requires Complete(dirs, dbs) && NothingElseFails(name, faults) && SeesAll(faults.expurge)
    requires faults.closing.Torn?
    ensures var entries := map[ZipName(name, existing) := File(content)];
            ArchiveOutcome(entries, name, Destination("", 1, "", ""), now, dirs, dbs, encode, partial, faults)
            == Outcome(map[ZipName(name, now) := File(faults.closing.written)], true)
  {
    ClockSetBack(name, existing, content, now, encode(ArchiveRun.ArchiveOf(dirs, dbs)), partial,
                 faults.(backupFails := false));
  }
}
