/** `runLocalProfile`: write one zip into the destination, or fail and remove it, then expurge. */
module LocalRun {
  import opened Text
  import opened Calendar
  import opened BackupName
  import opened Retention
  import opened Store
  import opened Expurge

  /** Closing the zip writes what is still buffered and the central directory. The source discards the
      errors of this, so that a zip may be torn without any sign of it. */
  datatype Closing = Flushed | Torn(written: string)

  /** What the environment decides about one run: which of its steps fail, whether the archive reaches
      the disk when it is closed, and how the expurge goes. */
  datatype RunFaults = RunFaults(
    prepareFails: bool,
    openFails: bool,
    backupFails: bool,
    cleanupFails: bool,
    chownFails: bool,
    chmodFails: bool,
    closing: Closing,
    expurge: ExpurgeFaults)

  /** What is on disk after an archive has been closed. */
  function OnDisk(archive: string, closing: Closing): string {
    if closing.Torn? then closing.written else archive
  }

  /** Where the destination stands once `backupLocal` has returned: `ok` is its success. A zip that
      cannot be opened is never written; one that fails later is left incomplete. */
  ghost function BackupOutcome(entries: map<string, Entry>, zip: string, archive: string, partial: string,
                               faults: RunFaults): Outcome
  {
    if faults.openFails || (zip in entries && entries[zip].Subdir?) then Outcome(entries, false)
    else if faults.backupFails then Outcome(entries[zip := File(partial)], false)
    else Outcome(entries[zip := File(OnDisk(archive, faults.closing))], true)
  }

  ghost function RunOutcome(entries: map<string, Entry>, name: ProfileName, dest: Destination, now: DateTime,
                            archive: string, partial: string, faults: RunFaults): Outcome
    requires Printable(now)
  {
    var zip := ZipName(name, now);
    if faults.prepareFails then Outcome(entries, false)
    else
      var written := BackupOutcome(entries, zip, archive, partial, faults);
      if !written.ok then
        Outcome(if faults.cleanupFails then written.entries else written.entries - {zip}, false)
      else if dest.owner != "" && faults.chownFails then Outcome(written.entries, false)
      else if dest.mode != "" && faults.chmodFails then Outcome(written.entries, false)
      else if dest.keep > 0 then
        ExpurgeOutcome(written.entries, dest.keep, name, faults.expurge)
      else written
  }

  method BackupLocal(dir: Directory, zip: string, archive: string, partial: string, faults: RunFaults)
    returns (ok: bool)
    modifies dir
    ensures Outcome(dir.entries, ok) == BackupOutcome(old(dir.entries), zip, archive, partial, faults)
  {
    var created := dir.Write(zip, partial, faults.openFails);
    if !created || faults.backupFails {
      return false;
    }
    ok := dir.Write(zip, OnDisk(archive, faults.closing), false);
    assert dir.entries == old(dir.entries)[zip := File(OnDisk(archive, faults.closing))];
  }

  method RunLocalProfile(dir: Directory, name: ProfileName, dest: Destination, now: DateTime,
                         archive: string, partial: string, faults: RunFaults) returns (ok: bool)
    requires Printable(now)
    modifies dir
    ensures Outcome(dir.entries, ok) == RunOutcome(old(dir.entries), name, dest, now, archive, partial, faults)
  {
    if faults.prepareFails {
      return false;
    }
    var zip := ZipName(name, now);
    ok := BackupLocal(dir, zip, archive, partial, faults);
    if !ok {
      ghost var left := dir.entries;
      var removed := dir.Remove(zip, faults.cleanupFails);
      assert zip !in left ==> left - {zip} == left;
      return false;
    }
    if dest.owner != "" && faults.chownFails {
      return false;
    }
    if dest.mode != "" && faults.chmodFails {
      return false;
    }
    if dest.keep > 0 {
      ok := ExpurgeDir(dir, dest.keep, name, faults.expurge);
    }
  }

  // ---------- what a run may do to the destination ----------

  /** The step a run stopped at. */
  datatype Ending = NotPrepared | BackupFailed | OwnershipFailed | ExpurgeFailed | Succeeded

  ghost function EndingOf(entries: map<string, Entry>, name: ProfileName, dest: Destination, now: DateTime,
                          archive: string, partial: string, faults: RunFaults): Ending
    requires Printable(now)
  {
    if faults.prepareFails then NotPrepared
    else if !BackupOutcome(entries, ZipName(name, now), archive, partial, faults).ok then BackupFailed
    else if (dest.owner != "" && faults.chownFails) || (dest.mode != "" && faults.chmodFails) then OwnershipFailed
    else if RunOutcome(entries, name, dest, now, archive, partial, faults).ok then Succeeded
    else ExpurgeFailed
  }

  lemma AddZip(entries: map<string, Entry>, name: ProfileName, now: DateTime, content: string)
    requires Printable(now)
    ensures Backups(entries[ZipName(name, now) := File(content)], name) == Backups(entries, name) + {ZipName(name, now)}
  {
    NameRoundTrip(name, now);
  }

  /** The directory with the new zip in it. */
  ghost function Added(entries: map<string, Entry>, name: ProfileName, now: DateTime, archive: string,
                       closing: Closing): map<string, Entry>
    requires Printable(now)
  {
    entries[ZipName(name, now) := File(OnDisk(archive, closing))]
  }

  ghost predicate From(out: map<string, Entry>, all: map<string, Entry>) {
    forall f :: f in out ==> f in all && out[f] == all[f]
  }

  lemma FailedEnding(entries: map<string, Entry>, name: ProfileName, dest: Destination, now: DateTime,
                     archive: string, partial: string, faults: RunFaults)
    requires Printable(now) && EndingOf(entries, name, dest, now, archive, partial, faults).BackupFailed?
    ensures var zip, out := ZipName(name, now), RunOutcome(entries, name, dest, now, archive, partial, faults).entries;
            if !faults.cleanupFails then out == entries - {zip}
            else if faults.openFails || (zip in entries && entries[zip].Subdir?) then out == entries
            else out == entries[zip := File(partial)]
  {
    var zip := ZipName(name, now);
    assert entries[zip := File(partial)] - {zip} == entries - {zip};
  }

  lemma ExpurgedEnding(entries: map<string, Entry>, name: ProfileName, dest: Destination, now: DateTime,
                       archive: string, partial: string, faults: RunFaults)
    requires Printable(now)
    requires EndingOf(entries, name, dest, now, archive, partial, faults) in {ExpurgeFailed, Succeeded}
    ensures var out := RunOutcome(entries, name, dest, now, archive, partial, faults);
            var all := Backups(entries, name) + {ZipName(name, now)};
            && Retained(dest.keep, all) <= Backups(out.entries, name) <= all
            && (out.ok ==> Backups(out.entries, name) == Left(dest.keep, all, faults.expurge.missed))
            && From(out.entries, Added(entries, name, now, archive, faults.closing))
  {
    AddZip(entries, name, now, OnDisk(archive, faults.closing));
    if dest.keep > 0 {
      ExpurgeSafe(Added(entries, name, now, archive, faults.closing), dest.keep, name, faults.expurge);
    }
  }

  /** Every ending of a run. Under a name that was free, removing the zip of a failed backup gives back
      the directory. */
  lemma RunEndings(entries: map<string, Entry>, name: ProfileName, dest: Destination, now: DateTime,
                   archive: string, partial: string, faults: RunFaults)
    requires Printable(now)
    ensures var zip, out := ZipName(name, now), RunOutcome(entries, name, dest, now, archive, partial, faults).entries;
            var all := Backups(entries, name) + {zip};
            match EndingOf(entries, name, dest, now, archive, partial, faults)
            case NotPrepared => out == entries
            case BackupFailed =>
              if !faults.cleanupFails then out == entries - {zip}
              else if faults.openFails || (zip in entries && entries[zip].Subdir?) then out == entries
              else out == entries[zip := File(partial)]
            case OwnershipFailed => out == Added(entries, name, now, archive, faults.closing)
            case ExpurgeFailed =>
              && dest.keep > 0 && Newest(dest.keep, all) <= Backups(out, name) <= all
              && From(out, Added(entries, name, now, archive, faults.closing))
            case Succeeded =>
              && Backups(out, name) == Left(dest.keep, all, faults.expurge.missed)
              && From(out, Added(entries, name, now, archive, faults.closing))
  {
    var ending := EndingOf(entries, name, dest, now, archive, partial, faults);
    if ending.BackupFailed? {
      FailedEnding(entries, name, dest, now, archive, partial, faults);
    } else if ending in {ExpurgeFailed, Succeeded} {
      ExpurgedEnding(entries, name, dest, now, archive, partial, faults);
    }
  }

  lemma SuccessEnding(entries: map<string, Entry>, name: ProfileName, dest: Destination, now: DateTime,
                      archive: string, partial: string, faults: RunFaults)
    requires Printable(now) && RunOutcome(entries, name, dest, now, archive, partial, faults).ok
    ensures EndingOf(entries, name, dest, now, archive, partial, faults).Succeeded?
  {
  }

  /** A successful run leaves exactly what retention keeps of the old backups and the new one if and
      only if there was no surplus or its listing showed all of them. */
  lemma RunExact(entries: map<string, Entry>, name: ProfileName, dest: Destination, now: DateTime,
                 archive: string, partial: string, faults: RunFaults)
    requires Printable(now) && RunOutcome(entries, name, dest, now, archive, partial, faults).ok
    ensures var all := Backups(entries, name) + {ZipName(name, now)};
            Backups(RunOutcome(entries, name, dest, now, archive, partial, faults).entries, name)
              == Retained(dest.keep, all)
            <==> SeesEnough(dest.keep, all, faults.expurge.missed)
  {
    SuccessEnding(entries, name, dest, now, archive, partial, faults);
    ExpurgedEnding(entries, name, dest, now, archive, partial, faults);
    LeftExact(dest.keep, Backups(entries, name) + {ZipName(name, now)}, faults.expurge.missed);
  }

  /** When a run succeeds: exactly when the destination can be prepared, the zip opened and the backup
      made, a demanded owner and mode can be set, and the expurge removes all of the surplus it sees.
      That closing the zip failed does not matter. */
  lemma RunSucceeds(entries: map<string, Entry>, name: ProfileName, dest: Destination, now: DateTime,
                    archive: string, partial: string, faults: RunFaults)
    requires Printable(now)
    ensures var zip, env := ZipName(name, now), faults.expurge;
            var all := Backups(entries, name) + {zip};
            RunOutcome(entries, name, dest, now, archive, partial, faults).ok
            <==> && !faults.prepareFails && !faults.openFails && !faults.backupFails
                 && (zip in entries ==> entries[zip].File?)
                 && (dest.owner != "" ==> !faults.chownFails) && (dest.mode != "" ==> !faults.chmodFails)
                 && (dest.keep > 0 ==>
                       && env.stat.IsDirectory? && name != ""
                       && forall f :: f in all - Left(dest.keep, all, env.missed) ==> !env.removeFails(f))
  {
    AddZip(entries, name, now, OnDisk(archive, faults.closing));
    ExpurgeSucceeds(Added(entries, name, now, archive, faults.closing), dest.keep, name, faults.expurge);
  }

  /** No outcome touches a file of another profile, or any other file. */
  lemma RunLeavesOthers(entries: map<string, Entry>, name: ProfileName, dest: Destination, now: DateTime,
                        archive: string, partial: string, faults: RunFaults, f: string)
    requires Printable(now) && !Matches(name, f)
    ensures var out := RunOutcome(entries, name, dest, now, archive, partial, faults);
            (f in out.entries <==> f in entries) && (f in entries ==> out.entries[f] == entries[f])
  {
    NameRoundTrip(name, now);
    ExpurgeSafe(entries[ZipName(name, now) := File(OnDisk(archive, faults.closing))], dest.keep, name, faults.expurge);
  }

  /** The cleanup removes whatever bears the zip's name, so a failed backup restores the directory
      exactly when that name was free. */
  lemma FailedBackupRestores(entries: map<string, Entry>, name: ProfileName, dest: Destination, now: DateTime,
                             archive: string, partial: string, faults: RunFaults)
    requires Printable(now)
    requires EndingOf(entries, name, dest, now, archive, partial, faults).BackupFailed? && !faults.cleanupFails
    ensures RunOutcome(entries, name, dest, now, archive, partial, faults).entries == entries
            <==> ZipName(name, now) !in entries
  {
  }

  /** The number of backups after a successful run, and when the new one is among them: when the
      expurge does not see it, or exactly when fewer than `keep` of the others it sees are newer. */
  lemma NewBackupSurvives(entries: map<string, Entry>, name: ProfileName, dest: Destination, now: DateTime,
                          archive: string, partial: string, faults: RunFaults)
    requires Printable(now) && dest.keep > 0
    requires RunOutcome(entries, name, dest, now, archive, partial, faults).ok
    ensures var zip, before, missed := ZipName(name, now), Backups(entries, name), faults.expurge.missed;
            var after := Backups(RunOutcome(entries, name, dest, now, archive, partial, faults).entries, name);
            var all, seen := |before + {zip}|, |Seen(before + {zip}, missed)|;
            && |after| == (if seen <= dest.keep then all else all - seen + dest.keep)
            && (zip in after <==> missed(zip) || |Newer(zip, Seen(before, missed))| < dest.keep)
  {
    var zip, before, missed := ZipName(name, now), Backups(entries, name), faults.expurge.missed;
    SuccessEnding(entries, name, dest, now, archive, partial, faults);
    ExpurgedEnding(entries, name, dest, now, archive, partial, faults);
    LeftSize(dest.keep, before + {zip}, missed);
    InLeft(dest.keep, before, zip, missed);
  }

  lemma InLeft(keep: int, before: set<string>, zip: string, missed: string -> bool)
    requires keep > 0
    ensures zip in Left(keep, before + {zip}, missed) <==> missed(zip) || |Newer(zip, Seen(before, missed))| < keep
  {
    BeforeTotal(zip, zip);
    assert Newer(zip, Seen(before + {zip}, missed)) == Newer(zip, Seen(before, missed));
  }

  lemma PrintedTime(name: ProfileName, now: DateTime)
    requires Printable(now)
    ensures TimeOf(ZipName(name, now)) == Instant(now)
  {
    NameRoundTrip(name, now);
  }

  /** The backups stamped later than a run's clock. */
  ghost function LaterThan(now: DateTime, files: set<string>): set<string>
    requires Valid(now)
  {
    set f | f in files && TimeOf(f) > Instant(now)
  }

  /** In terms of the clock: as long as no existing file stands for the very instant of the run
      without having a real date, the new backup is kept exactly when the expurge does not see it or
      fewer than `keep` of the existing ones it sees are stamped later. */
  lemma BackupSurvivesByClock(entries: map<string, Entry>, name: ProfileName, dest: Destination, now: DateTime,
                              archive: string, partial: string, faults: RunFaults)
    requires Printable(now) && dest.keep > 0
    requires forall f :: f in Backups(entries, name) && TimeOf(f) == Instant(now) ==>
               Stamped(f) && ExtractTime(f).Some?
    requires RunOutcome(entries, name, dest, now, archive, partial, faults).ok
    ensures var zip, missed := ZipName(name, now), faults.expurge.missed;
            zip in RunOutcome(entries, name, dest, now, archive, partial, faults).entries
            <==> missed(zip) || |LaterThan(now, Seen(Backups(entries, name), missed))| < dest.keep
  {
    var zip, seen := ZipName(name, now), Seen(Backups(entries, name), faults.expurge.missed);
    PrintedTime(name, now);
    NameRoundTrip(name, now);
    BeforeTotal(zip, zip);
    forall f | f in seen
      ensures f in Newer(zip, seen) <==> f in LaterThan(now, seen)
    {
      if TimeOf(f) == TimeOf(zip) {
        SameTimeSameFile(name, f, zip);
      }
    }
    assert Newer(zip, seen) == LaterThan(now, seen);
    NewBackupSurvives(entries, name, dest, now, archive, partial, faults);
  }

  /** In particular it is kept when no existing backup is stamped later. */
  lemma LatestBackupSurvives(entries: map<string, Entry>, name: ProfileName, dest: Destination, now: DateTime,
                             archive: string, partial: string, faults: RunFaults)
    requires Printable(now) && dest.keep > 0
    requires forall f :: f in Backups(entries, name) ==>
               TimeOf(f) < Instant(now) || (TimeOf(f) == Instant(now) && Stamped(f) && ExtractTime(f).Some?)
    requires RunOutcome(entries, name, dest, now, archive, partial, faults).ok
    ensures ZipName(name, now) in RunOutcome(entries, name, dest, now, archive, partial, faults).entries
  {
    assert LaterThan(now, Seen(Backups(entries, name), faults.expurge.missed)) == {};
    BackupSurvivesByClock(entries, name, dest, now, archive, partial, faults);
  }

  /** A run in which nothing fails removes exactly the surplus it sees of the old backups and the new
      one. */
  lemma SmoothRun(entries: map<string, Entry>, name: ProfileName, keep: int, now: DateTime,
                  archive: string, partial: string, faults: RunFaults)
    requires Printable(now) && ZipName(name, now) !in entries && name != "" && keep > 0
    requires Clean(faults.expurge) && !faults.prepareFails && !faults.openFails && !faults.backupFails
    ensures var added := entries[ZipName(name, now) := File(OnDisk(archive, faults.closing))];
            var all := Backups(added, name);
            RunOutcome(entries, name, Destination("", keep, "", ""), now, archive, partial, faults)
            == Outcome(added - (all - Left(keep, all, faults.expurge.missed)), true)
  {
    CleanExpurge(entries[ZipName(name, now) := File(OnDisk(archive, faults.closing))], keep, name, faults.expurge);
  }

  lemma NewestOfTwo(a: string, b: string)
    requires Before(a, b)
    ensures Newest(1, {a, b}) == {b}
  {
    BeforeTotal(a, b);
    BeforeTotal(a, a);
    BeforeTotal(b, b);
    assert Newer(b, {a, b}) == {};
    assert Newer(a, {a, b}) == {b};
  }

  lemma LaterIsKept(name: ProfileName, early: DateTime, late: DateTime)
    requires Printable(early) && Printable(late) && Earlier(early, late)
    ensures Newest(1, {ZipName(name, early), ZipName(name, late)}) == {ZipName(name, late)}
  {
    PrintedTime(name, early);
    PrintedTime(name, late);
    InstantOrder(early, late);
    NewestOfTwo(ZipName(name, early), ZipName(name, late));
  }

  lemma TwoBackups(name: ProfileName, one: DateTime, content: string, two: DateTime, archive: string)
    requires Printable(one) && Printable(two)
    requires one != two
    ensures ZipName(name, one) != ZipName(name, two)
    ensures Backups(map[ZipName(name, one) := File(content), ZipName(name, two) := File(archive)], name)
            == {ZipName(name, one), ZipName(name, two)}
  {
    NameRoundTrip(name, one);
    NameRoundTrip(name, two);
  }

  lemma LeaveOne(both: map<string, Entry>, a: string, b: string)
    requires a != b && both.Keys == {a, b}
    ensures both - ({a, b} - {b}) == map[b := both[b]]
  {
  }

  /** Names hold wall-clock time, so a clock set back, as at the end of summer time, may read earlier
      than the stamp of an existing backup. With one backup in the directory and `keep` 1, a run in
      which no step fails leaves its own new zip if its clock reads later than that stamp, and otherwise
      deletes it again, leaving the directory as it was. */
  lemma ClockSetBack(name: ProfileName, existing: DateTime, content: string, now: DateTime,
                     archive: string, partial: string, faults: RunFaults)
    requires Printable(existing) && Printable(now) && existing != now
    requires name != "" && Clean(faults.expurge) && SeesAll(faults.expurge)
    requires !faults.prepareFails && !faults.openFails && !faults.backupFails
    ensures var entries := map[ZipName(name, existing) := File(content)];
            RunOutcome(entries, name, Destination("", 1, "", ""), now, archive, partial, faults)
            == if Earlier(existing, now) then
                 Outcome(map[ZipName(name, now) := File(OnDisk(archive, faults.closing))], true)
               else Outcome(entries, true)
  {
    var old', zip, written := ZipName(name, existing), ZipName(name, now), OnDisk(archive, faults.closing);
    var entries, both := map[old' := File(content)], map[old' := File(content), zip := File(written)];
    TwoBackups(name, existing, content, now, written);
    SmoothRun(entries, name, 1, now, archive, partial, faults);
    assert entries[zip := File(written)] == both;
    assert Left(1, {old', zip}, faults.expurge.missed) == Newest(1, {old', zip}) by {
      LeftExact(1, {old', zip}, faults.expurge.missed);
    }
    if Earlier(existing, now) {
      LaterIsKept(name, existing, now);
      LeaveOne(both, old', zip);
    } else {
      LaterIsKept(name, now, existing);
      LeaveOne(both, zip, old');
      assert {zip, old'} == {old', zip};
    }
  }

  const BAD_STAMP := "9999_99_99-99:99:99"

  /** A file of the profile whose date no calendar has. */
  function Undated(name: ProfileName): string {
    name + "_" + BAD_STAMP + TAIL
  }

  lemma BadStamp()
    ensures GlobMatch(STAMP_PATTERN, BAD_STAMP) && ParseStamp(BAD_STAMP) == None
  {
  }

  lemma UndatedTime(name: ProfileName)
    ensures Matches(name, Undated(name))
    ensures TimeOf(Undated(name)) == Instant(ZERO_TIME)
  {
    var file, n := Undated(name), |name|;
    BadStamp();
    assert file[..n] == name && file[n + 1..n + 20] == BAD_STAMP && file[n + 20..] == TAIL;
    MatchShape(name, file);
    StampFound(name, file);
  }

  lemma UndatedIsNewer(name: ProfileName)
    ensures NameLess(ZipName(name, ZERO_TIME), Undated(name))
  {
    var zero, bad := "0001_01_01-00:00:00" + TAIL, BAD_STAMP + TAIL;
    ZeroStamp();
    assert ZipName(name, ZERO_TIME) == (name + "_") + zero;
    assert Undated(name) == (name + "_") + bad;
    assert zero[0] == '0' && bad[0] == '9';
    CommonPrefix(name + "_", zero, bad);
  }

  lemma ZeroStamp()
    ensures Stamp(ZERO_TIME) == "0001_01_01-00:00:00"
  {
  }

  /** A remark on ties: a file whose date cannot be read stands for midnight of 1 January of year 1.
      Only a run whose clock read just that could tie with it; the run would lose the tie by name. */
  lemma TiedBackupIsLost(name: ProfileName, archive: string, faults: RunFaults)
    requires name != "" && Clean(faults.expurge) && SeesAll(faults.expurge)
    requires !faults.prepareFails && !faults.openFails && !faults.backupFails
    ensures var entries := map[Undated(name) := File("")];
            var out := RunOutcome(entries, name, Destination("", 1, "", ""), ZERO_TIME, archive, "", faults);
            && (forall f :: f in Backups(entries, name) ==> TimeOf(f) <= Instant(ZERO_TIME))
            && out.ok && ZipName(name, ZERO_TIME) !in out.entries
  {
    var entries := map[Undated(name) := File("")];
    var zip, before := ZipName(name, ZERO_TIME), Backups(entries, name);
    UndatedTime(name);
    UndatedIsNewer(name);
    PrintedTime(name, ZERO_TIME);
    BeforeTotal(zip, Undated(name));
    assert Newer(zip, Seen(before, faults.expurge.missed)) == {Undated(name)};
    SmoothRun(entries, name, 1, ZERO_TIME, archive, "", faults);
    NewBackupSurvives(entries, name, Destination("", 1, "", ""), ZERO_TIME, archive, "", faults);
    NameRoundTrip(name, ZERO_TIME);
  }
}
