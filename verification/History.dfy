/** The two-machine setup: one machine makes local backups of a profile, another one pulls them
    over sftp. Runs do not overlap; any of their steps may fail. */
module History {
  import opened Text
  import opened Calendar
  import opened BackupName
  import opened Retention
  import opened Store
  import opened Expurge
  import opened LocalRun
  import opened SftpSync

  datatype Setup = Setup(name: ProfileName, remote: Destination, localKeep: int)

  datatype Event =
    | Backup(now: DateTime, archive: string, partial: string, faults: RunFaults)
    | Sync(dir: SyncDir)

  /** Both directories, and three history variables: every backup a run has left on the remote
      machine, how many of them since the last successful sync, and the time of the last run. */
  datatype State = State(
    remote: map<string, Entry>,
    local: map<string, Entry>,
    made: map<string, Entry>,
    gap: nat,
    last: Option<DateTime>)

  ghost predicate Enabled(u: Setup, s: State, e: Event) {
    match e
    case Backup(now, _, _, _) =>
      Printable(now) && (s.last.Some? ==> Earlier(s.last.value, now))
    case Sync(d) =>
      d.name == u.name && d.remote.entries == s.remote && Listed(d.remote)
  }

  ghost function EventOutcome(u: Setup, s: State, e: Event): Outcome
    requires Enabled(u, s, e)
  {
    match e
    case Backup(now, archive, partial, faults) => RunOutcome(s.remote, u.name, u.remote, now, archive, partial, faults)
    case Sync(d) => SyncOutcome(s.local, d, u.localKeep)
  }

  /** What a backup event's zip holds once it is closed. */
  function Stored(e: Event): string
    requires e.Backup?
  {
    OnDisk(e.archive, e.faults.closing)
  }

  function ExpurgeOf(e: Event): ExpurgeFaults {
    if e.Backup? then e.faults.expurge else e.dir.expurge
  }

  ghost function AfterBackup(s: State, zip: string, now: DateTime, out: Outcome): State {
    if zip in out.entries then
      State(out.entries, s.local, s.made[zip := out.entries[zip]], s.gap + 1, Some(now))
    else
      State(out.entries, s.local, s.made, s.gap, Some(now))
  }

  ghost function AfterSync(s: State, out: Outcome): State {
    s.(local := out.entries, gap := if out.ok then 0 else s.gap)
  }

  ghost function Next(u: Setup, s: State, e: Event): State
    requires Enabled(u, s, e)
  {
    var out := EventOutcome(u, s, e);
    if e.Backup? then AfterBackup(s, ZipName(u.name, e.now), e.now, out) else AfterSync(s, out)
  }

  /** Neither machine holds a backup of the profile yet; other files may be there. */
  ghost predicate Initial(u: Setup, s: State) {
    && Backups(s.remote, u.name) == {} && Backups(s.local, u.name) == {}
    && s.made == map[] && s.gap == 0 && s.last == None
  }

  ghost predicate Run(u: Setup, events: seq<Event>, states: seq<State>) {
    && |states| == |events| + 1
    && Initial(u, states[0])
    && forall i :: 0 <= i < |events| ==>
         Enabled(u, states[i], events[i]) && states[i + 1] == Next(u, states[i], events[i])
  }

  /** What a gap of `n` backups between two syncs may be: the remote still holds all that the
      local machine is meant to keep. */
  predicate GapOk(u: Setup, n: nat) {
    u.remote.keep <= 0 || n <= u.remote.keep || 0 < u.localKeep <= u.remote.keep
  }

  // ---------- the invariant, under any failures ----------

  ghost predicate MadeInOrder(u: Setup, s: State) {
    && (forall f :: f in s.made ==> Matches(u.name, f) && s.made[f].File?)
    && (forall f :: f in s.made ==> s.last.Some? && Valid(s.last.value) && TimeOf(f) <= Instant(s.last.value))
    && s.gap <= |s.made.Keys|
  }

  ghost predicate RemoteHolds(u: Setup, s: State) {
    && Retained(u.remote.keep, s.made.Keys) <= Backups(s.remote, u.name) <= s.made.Keys
    && (forall f :: f in Backups(s.remote, u.name) ==> s.remote[f] == s.made[f])
  }

  /** What holds at every point of every run, whatever the gaps. */
  ghost predicate Sound(u: Setup, s: State) {
    MadeInOrder(u, s) && RemoteHolds(u, s) && Backups(s.local, u.name) <= s.made.Keys
  }

  /** Apart from `past` ones, the backups the local machine must keep are there or were made since its
      last successful sync. */
  ghost predicate LocalHolds(u: Setup, s: State, past: set<string>) {
    Retained(u.localKeep, s.made.Keys) - past <= Backups(s.local, u.name) + Newest(s.gap, s.made.Keys)
  }

  ghost predicate Inv(u: Setup, s: State) {
    Sound(u, s) && LocalHolds(u, s, {})
  }

  lemma InitialSound(u: Setup, s: State)
    requires Initial(u, s)
    ensures Sound(u, s) && s.made.Keys == {}
  {
  }

  /** A run's zip name is new, and newer than everything made before it. */
  lemma ZipIsNewest(u: Setup, s: State, now: DateTime)
    requires MadeInOrder(u, s) && RemoteHolds(u, s)
    requires Printable(now) && (s.last.Some? ==> Earlier(s.last.value, now))
    ensures var zip := ZipName(u.name, now);
            && zip !in s.made && zip !in s.remote && Matches(u.name, zip) && TimeOf(zip) == Instant(now)
            && (forall f :: f in s.made ==> Before(f, zip))
  {
    var zip := ZipName(u.name, now);
    NameRoundTrip(u.name, now);
    PrintedTime(u.name, now);
    forall f | f in s.made
      ensures TimeOf(f) < TimeOf(zip) && Before(f, zip)
    {
      InstantOrder(s.last.value, now);
    }
    assert zip in s.remote ==> zip in Backups(s.remote, u.name);
  }

  /** What adding a newest file does to retention: it is retained, and beyond it only what was
      retained before. */
  ghost predicate Grows(keep: int, files: set<string>, zip: string) {
    && zip !in files
    && zip in Retained(keep, files + {zip})
    && Retained(keep, files + {zip}) <= Retained(keep, files) + {zip}
  }

  lemma RetainedGrows(keep: int, files: set<string>, zip: string)
    requires zip !in files && forall f :: f in files ==> Before(f, zip)
    ensures Grows(keep, files, zip)
  {
    if keep > 0 {
      NewestOfUnion(keep, files, {zip});
      BeforeTotal(zip, zip);
      forall f | f in files
        ensures !Before(zip, f)
      {
        BeforeTotal(f, zip);
      }
      assert Newer(zip, files + {zip}) == {};
    }
  }

  /** The newest stretch of the files grows by the new one. */
  lemma NewestGrows(n: nat, files: set<string>, zip: string)
    requires zip !in files && forall f :: f in files ==> Before(f, zip)
    ensures Newest(n + 1, files + {zip}) == Newest(n, files) + {zip}
  {
    RetainedGrows(n + 1, files, zip);
    forall f | f in files
      ensures |Newer(f, files + {zip})| == |Newer(f, files)| + 1
    {
      assert Newer(f, files + {zip}) == Newer(f, files) + {zip};
    }
  }

  /** What a local run leaves of the profile's backups, in terms of whether its zip is there. */
  ghost predicate KeepsNewest(name: ProfileName, keep: int, entries: map<string, Entry>, out: Outcome,
                              zip: string, archive: string, sees: bool)
  {
    var before, after := Backups(entries, name), Backups(out.entries, name);
    && (zip in out.entries ==> Retained(keep, before + {zip}) <= after <= before + {zip} && out.entries[zip].File?)
    && (zip !in out.entries ==> after == before)
    && (forall f :: f in out.entries && f != zip ==> f in entries && out.entries[f] == entries[f])
    && (out.ok ==> zip in out.entries && out.entries[zip] == File(archive))
    && (out.ok && sees ==> after == Retained(keep, before + {zip}))
  }

  lemma AddedKeepsNewest(name: ProfileName, keep: int, entries: map<string, Entry>, out: Outcome,
                         zip: string, content: string, archive: string, sees: bool)
    requires zip in out.entries && (out.ok ==> content == archive)
    requires Backups(entries[zip := File(content)], name) == Backups(entries, name) + {zip}
    requires Retained(keep, Backups(entries, name) + {zip}) <= Backups(out.entries, name)
    requires Backups(out.entries, name) <= Backups(entries, name) + {zip}
    requires out.ok && sees ==> Backups(out.entries, name) == Retained(keep, Backups(entries, name) + {zip})
    requires var added := entries[zip := File(content)];
             forall f :: f in out.entries ==> f in added && out.entries[f] == added[f]
    ensures KeepsNewest(name, keep, entries, out, zip, archive, sees)
  {
  }

  lemma RunKeeps(name: ProfileName, dest: Destination, entries: map<string, Entry>, e: Event)
    requires e.Backup? && Printable(e.now) && ZipName(name, e.now) !in entries
    requires forall f :: f in Backups(entries, name) ==> Before(f, ZipName(name, e.now))
    ensures KeepsNewest(name, dest.keep, entries,
                        RunOutcome(entries, name, dest, e.now, e.archive, e.partial, e.faults),
                        ZipName(name, e.now), Stored(e), SeesAll(e.faults.expurge))
  {
    var zip, sees := ZipName(name, e.now), SeesAll(e.faults.expurge);
    var out := RunOutcome(entries, name, dest, e.now, e.archive, e.partial, e.faults);
    var before, ending := Backups(entries, name), EndingOf(entries, name, dest, e.now, e.archive, e.partial, e.faults);
    RetainedGrows(dest.keep, before, zip);
    if ending in {ExpurgeFailed, Succeeded} {
      ExpurgedEnding(entries, name, dest, e.now, e.archive, e.partial, e.faults);
      AddZip(entries, name, e.now, Stored(e));
      if out.ok && sees {
        RunExact(entries, name, dest, e.now, e.archive, e.partial, e.faults);
      }
      assert zip in Retained(dest.keep, before + {zip});
      AddedKeepsNewest(name, dest.keep, entries, out, zip, Stored(e), Stored(e), sees);
    } else {
      RunEndings(entries, name, dest, e.now, e.archive, e.partial, e.faults);
      assert entries - {zip} == entries;
      AddZip(entries, name, e.now, e.partial);
      AddZip(entries, name, e.now, Stored(e));
    }
  }

  /** The zip of a backup event extends what each machine must retain, and the current gap. */
  lemma BackupGrowth(u: Setup, s: State, e: Event)
    requires e.Backup? && Enabled(u, s, e) && MadeInOrder(u, s) && RemoteHolds(u, s)
    ensures var zip := ZipName(u.name, e.now);
            && Grows(u.remote.keep, s.made.Keys, zip)
            && Grows(u.localKeep, s.made.Keys, zip)
            && Newest(s.gap + 1, s.made.Keys + {zip}) == Newest(s.gap, s.made.Keys) + {zip}
  {
    var zip := ZipName(u.name, e.now);
    assert Grows(u.remote.keep, s.made.Keys, zip) by {
      ZipIsNewest(u, s, e.now);
      RetainedGrows(u.remote.keep, s.made.Keys, zip);
    }
    assert Grows(u.localKeep, s.made.Keys, zip) by {
      ZipIsNewest(u, s, e.now);
      RetainedGrows(u.localKeep, s.made.Keys, zip);
    }
    assert Newest(s.gap + 1, s.made.Keys + {zip}) == Newest(s.gap, s.made.Keys) + {zip} by {
      ZipIsNewest(u, s, e.now);
      NewestGrows(s.gap, s.made.Keys, zip);
    }
  }

  /** The run of a backup event leaves the remote machine's newest backups and at most adds its zip. */
  lemma BackupRun(u: Setup, s: State, e: Event)
    requires e.Backup? && Enabled(u, s, e) && MadeInOrder(u, s) && RemoteHolds(u, s)
    ensures KeepsNewest(u.name, u.remote.keep, s.remote, EventOutcome(u, s, e), ZipName(u.name, e.now),
                        Stored(e), SeesAll(e.faults.expurge))
  {
    ZipIsNewest(u, s, e.now);
    RunKeeps(u.name, u.remote, s.remote, e);
  }

  lemma StepKeepsRemote(u: Setup, s: State, zip: string, now: DateTime, out: Outcome, archive: string, sees: bool)
    requires RemoteHolds(u, s) && Grows(u.remote.keep, s.made.Keys, zip)
    requires KeepsNewest(u.name, u.remote.keep, s.remote, out, zip, archive, sees)
    ensures RemoteHolds(u, AfterBackup(s, zip, now, out))
  {
    if zip in out.entries {
      var before, all := Backups(s.remote, u.name), s.made.Keys + {zip};
      assert AfterBackup(s, zip, now, out).made.Keys == all;
      forall f | f in Retained(u.remote.keep, all)
        ensures f in Retained(u.remote.keep, before + {zip})
      {
        assert f in before + {zip};
        if u.remote.keep > 0 {
          NewestMonotone(u.remote.keep, before + {zip}, all, f);
        }
      }
    }
  }

  lemma StepKeepsLocal(u: Setup, s: State, zip: string, now: DateTime, out: Outcome, past: set<string>)
    requires LocalHolds(u, s, past) && Grows(u.localKeep, s.made.Keys, zip)
    requires Newest(s.gap + 1, s.made.Keys + {zip}) == Newest(s.gap, s.made.Keys) + {zip}
    ensures LocalHolds(u, AfterBackup(s, zip, now, out), past)
  {
    if zip in out.entries {
      var all := s.made.Keys + {zip};
      assert AfterBackup(s, zip, now, out).made.Keys == all;
      OneMoreDue(Retained(u.localKeep, s.made.Keys), Retained(u.localKeep, all), past, Backups(s.local, u.name),
                 Newest(s.gap, s.made.Keys), Newest(s.gap + 1, all), zip);
    }
  }

  lemma OneMoreDue(due: set<string>, due': set<string>, past: set<string>, local: set<string>,
                   newest: set<string>, newest': set<string>, zip: string)
    requires due - past <= local + newest && due' <= due + {zip} && newest' == newest + {zip}
    ensures due' - past <= local + newest'
  {
    forall f | f in due' - past
      ensures f in local + newest'
    {
      assert f != zip ==> f in due - past;
    }
  }

  lemma StepKeepsOrder(u: Setup, s: State, zip: string, now: DateTime, out: Outcome)
    requires MadeInOrder(u, s) && zip !in s.made && (zip in out.entries ==> out.entries[zip].File?)
    requires Matches(u.name, zip) && Valid(now) && TimeOf(zip) == Instant(now)
    requires forall f :: f in s.made ==> TimeOf(f) <= Instant(now)
    ensures MadeInOrder(u, AfterBackup(s, zip, now, out))
  {
    if zip in out.entries {
      OneMore(s.made, zip, out.entries[zip]);
    }
  }

  lemma OneMore(made: map<string, Entry>, zip: string, e: Entry)
    requires zip !in made
    ensures |made[zip := e].Keys| == |made.Keys| + 1
  {
    assert made[zip := e].Keys == made.Keys + {zip};
  }

  lemma LaterThanAll(u: Setup, s: State, now: DateTime)
    requires MadeInOrder(u, s) && Valid(now) && (s.last.Some? ==> Earlier(s.last.value, now))
    ensures forall f :: f in s.made ==> TimeOf(f) <= Instant(now)
  {
    if s.last.Some? && Valid(s.last.value) {
      InstantOrder(s.last.value, now);
    }
  }

  lemma BackupKeepsSound(u: Setup, s: State, e: Event)
    requires e.Backup? && Enabled(u, s, e) && Sound(u, s)
    ensures Sound(u, Next(u, s, e))
  {
    var zip, out := ZipName(u.name, e.now), EventOutcome(u, s, e);
    BackupRun(u, s, e);
    assert RemoteHolds(u, AfterBackup(s, zip, e.now, out)) by {
      BackupGrowth(u, s, e);
      StepKeepsRemote(u, s, zip, e.now, out, Stored(e), SeesAll(e.faults.expurge));
    }
    assert MadeInOrder(u, AfterBackup(s, zip, e.now, out)) by {
      LaterThanAll(u, s, e.now);
      ZipIsNewest(u, s, e.now);
      StepKeepsOrder(u, s, zip, e.now, out);
    }
  }

  lemma BackupKeepsLocal(u: Setup, s: State, e: Event, past: set<string>)
    requires e.Backup? && Enabled(u, s, e) && Sound(u, s) && LocalHolds(u, s, past)
    ensures LocalHolds(u, Next(u, s, e), past)
  {
    BackupGrowth(u, s, e);
    StepKeepsLocal(u, s, ZipName(u.name, e.now), e.now, EventOutcome(u, s, e), past);
  }

  lemma PullableIsBackups(u: Setup, s: State, d: SyncDir)
    requires RemoteHolds(u, s) && MadeInOrder(u, s) && Enabled(u, s, Sync(d))
    ensures Pullable(d.remote, d.name) == Backups(s.remote, u.name)
  {
  }

  lemma SyncKeepsSound(u: Setup, s: State, e: Event)
    requires e.Sync? && Enabled(u, s, e) && Sound(u, s)
    ensures Sound(u, Next(u, s, e))
  {
    PullableIsBackups(u, s, e.dir);
    SyncNeverLoses(s.local, e.dir, u.localKeep, s.made.Keys);
  }

  /** With an acceptable gap, local and remote together hold all the local machine must keep. */
  lemma GapCovered(u: Setup, s: State, past: set<string>)
    requires Sound(u, s) && LocalHolds(u, s, past) && GapOk(u, s.gap)
    ensures Retained(u.localKeep, s.made.Keys) - past <= Backups(s.local, u.name) + Backups(s.remote, u.name)
  {
  }

  lemma DuePart(keep: int, part: set<string>, files: set<string>)
    requires part <= files
    ensures part * Retained(keep, files) <= Retained(keep, part)
  {
    forall f | f in part * Retained(keep, files)
      ensures f in Retained(keep, part)
    {
      if keep > 0 {
        NewestMonotone(keep, part, files, f);
      }
    }
  }

  /** A successful sync keeps everything it must keep of what the two machines have. */
  lemma SyncKeepsDue(u: Setup, s: State, d: SyncDir)
    requires Sound(u, s) && Enabled(u, s, Sync(d)) && EventOutcome(u, s, Sync(d)).ok
    ensures var both := Backups(s.local, u.name) + Backups(s.remote, u.name);
            var after := Backups(Next(u, s, Sync(d)).local, u.name);
            both * Retained(u.localKeep, s.made.Keys) <= after <= both
  {
    PullableIsBackups(u, s, d);
    SyncLeaves(s.local, d, u.localKeep);
    DuePart(u.localKeep, Backups(s.local, u.name) + Backups(s.remote, u.name), s.made.Keys);
  }

  /** A successful sync leaves exactly what the local machine must keep of everything ever made if and
      only if the two machines together still have all of that, and its expurge saw enough of it. */
  lemma SyncExactness(u: Setup, s: State, d: SyncDir)
    requires Sound(u, s) && Enabled(u, s, Sync(d)) && EventOutcome(u, s, Sync(d)).ok
    ensures var due, both := Retained(u.localKeep, s.made.Keys), Backups(s.local, u.name) + Backups(s.remote, u.name);
            Backups(Next(u, s, Sync(d)).local, u.name) == due
            <==> due <= both && SeesEnough(u.localKeep, both, d.expurge.missed)
  {
    var both := Backups(s.local, u.name) + Backups(s.remote, u.name);
    SyncKeepsDue(u, s, d);
    SyncLeavesExactly(s.local, d, u.localKeep);
    PullableIsBackups(u, s, d);
    if Retained(u.localKeep, s.made.Keys) <= both && u.localKeep > 0 {
      NewestSandwich(u.localKeep, both, s.made.Keys);
    }
  }

  /** After an acceptable gap they still have it all: nothing due is missing, and there is nothing else
      if the expurge saw all files. */
  lemma SyncExact(u: Setup, s: State, d: SyncDir)
    requires Inv(u, s) && Enabled(u, s, Sync(d)) && GapOk(u, s.gap)
    requires EventOutcome(u, s, Sync(d)).ok
    ensures var due, after := Retained(u.localKeep, s.made.Keys), Backups(Next(u, s, Sync(d)).local, u.name);
            due <= after && (SeesAll(d.expurge) ==> after == due)
  {
    GapCovered(u, s, {});
    SyncKeepsDue(u, s, d);
    SyncExactness(u, s, d);
  }

  lemma SyncKeepsLocal(u: Setup, s: State, e: Event, past: set<string>)
    requires e.Sync? && Enabled(u, s, e) && Sound(u, s) && LocalHolds(u, s, past)
    requires EventOutcome(u, s, e).ok ==> GapOk(u, s.gap)
    ensures LocalHolds(u, Next(u, s, e), past)
  {
    if EventOutcome(u, s, e).ok {
      GapCovered(u, s, past);
      SyncKeepsDue(u, s, e.dir);
    } else {
      PullableIsBackups(u, s, e.dir);
      SyncNeverLoses(s.local, e.dir, u.localKeep, s.made.Keys);
    }
  }

  /** If this is a successful sync, it comes after an acceptable gap. */
  ghost predicate InTime(u: Setup, s: State, e: Event)
    requires Enabled(u, s, e)
  {
    e.Sync? && EventOutcome(u, s, e).ok ==> GapOk(u, s.gap)
  }

  ghost predicate GapsOk(u: Setup, events: seq<Event>, states: seq<State>, i: nat, n: nat)
    requires Run(u, events, states) && n <= |events|
  {
    forall j {:trigger InTime(u, states[j], events[j])} {:trigger events[j]} :: i <= j < n ==>
      InTime(u, states[j], events[j])
  }

  /** At every point of every run, whatever fails and however long the gaps. */
  lemma {:induction false} SoundHolds(u: Setup, events: seq<Event>, states: seq<State>, n: nat)
    requires Run(u, events, states) && n <= |events|
    ensures Sound(u, states[n])
  {
    if n == 0 {
      InitialSound(u, states[0]);
    } else {
      SoundHolds(u, events, states, n - 1);
      var s, e := states[n - 1], events[n - 1];
      if e.Backup? {
        BackupKeepsSound(u, s, e);
      } else {
        SyncKeepsSound(u, s, e);
      }
    }
  }

  lemma StepHoldsLocal(u: Setup, s: State, e: Event, past: set<string>)
    requires Enabled(u, s, e) && Sound(u, s) && LocalHolds(u, s, past)
    requires InTime(u, s, e)
    ensures LocalHolds(u, Next(u, s, e), past)
  {
    if e.Backup? {
      BackupKeepsLocal(u, s, e, past);
    } else {
      SyncKeepsLocal(u, s, e, past);
    }
  }

  lemma NextHoldsLocal(u: Setup, events: seq<Event>, states: seq<State>, n: nat, past: set<string>)
    requires Run(u, events, states) && n < |events| && InTime(u, states[n], events[n])
    requires LocalHolds(u, states[n], past)
    ensures LocalHolds(u, states[n + 1], past)
  {
    SoundHolds(u, events, states, n);
    StepHoldsLocal(u, states[n], events[n], past);
  }

  lemma FirstInTime(u: Setup, events: seq<Event>, states: seq<State>, i: nat, n: nat)
    requires Run(u, events, states) && i < n <= |events| && GapsOk(u, events, states, i, n)
    ensures InTime(u, states[i], events[i]) && GapsOk(u, events, states, i + 1, n)
  {
  }

  /** As long as the gaps are acceptable from position `i` on, nothing more goes missing. */
  lemma {:induction false} LocalHoldsSince(u: Setup, events: seq<Event>, states: seq<State>, i: nat, n: nat,
                                           past: set<string>)
    requires Run(u, events, states) && i <= n <= |events| && GapsOk(u, events, states, i, n)
    requires LocalHolds(u, states[i], past)
    ensures LocalHolds(u, states[n], past)
    decreases n - i
  {
    if i < n {
      FirstInTime(u, events, states, i, n);
      NextHoldsLocal(u, events, states, i, past);
      LocalHoldsSince(u, events, states, i + 1, n, past);
    }
  }

  lemma InvHolds(u: Setup, events: seq<Event>, states: seq<State>, n: nat)
    requires Run(u, events, states) && n <= |events| && GapsOk(u, events, states, 0, n)
    ensures Inv(u, states[n])
  {
    InitialSound(u, states[0]);
    SoundHolds(u, events, states, n);
    LocalHoldsSince(u, events, states, 0, n, {});
  }

  /** Over every run, with backups and syncs failing at any step and expurges seeing any part of the
      files: as long as the gaps before successful syncs were acceptable, each successful sync leaves
      locally the newest backups ever left on the remote machine, including ones it has since deleted;
      and exactly those when its own expurge saw all files. */
  lemma EverySuccessfulSyncExact(u: Setup, events: seq<Event>, states: seq<State>, i: nat)
    requires Run(u, events, states) && i < |events| && GapsOk(u, events, states, 0, i + 1)
    requires events[i].Sync? && EventOutcome(u, states[i], events[i]).ok
    ensures var due, after := Retained(u.localKeep, states[i].made.Keys), Backups(states[i + 1].local, u.name);
            due <= after && (SeesAll(events[i].dir.expurge) ==> after == due)
  {
    assert GapsOk(u, events, states, 0, i);
    InvHolds(u, events, states, i);
    SyncExact(u, states[i], events[i].dir);
  }

  // ---------- recovering from a long gap ----------

  /** Whatever was made after `past` is newer than all of it. */
  ghost predicate GrownFrom(past: set<string>, files: set<string>) {
    past <= files && forall f, g :: f in past && g in files - past ==> Before(f, g)
  }

  lemma StepAddsNewer(u: Setup, s: State, e: Event, past: set<string>)
    requires Enabled(u, s, e) && Sound(u, s) && GrownFrom(past, s.made.Keys)
    ensures GrownFrom(past, Next(u, s, e).made.Keys)
  {
    if e.Backup? {
      var zip := ZipName(u.name, e.now);
      ZipIsNewest(u, s, e.now);
      OneNewer(past, s.made.Keys, zip);
      MadeNext(u, s, e);
    }
  }

  lemma OneNewer(past: set<string>, files: set<string>, zip: string)
    requires GrownFrom(past, files) && forall f :: f in files ==> Before(f, zip)
    ensures GrownFrom(past, files + {zip})
  {
  }

  lemma MadeNext(u: Setup, s: State, e: Event)
    requires e.Backup? && Enabled(u, s, e)
    ensures Next(u, s, e).made.Keys in {s.made.Keys, s.made.Keys + {ZipName(u.name, e.now)}}
  {
    var zip, out := ZipName(u.name, e.now), EventOutcome(u, s, e);
    if zip in out.entries {
      assert s.made[zip := out.entries[zip]].Keys == s.made.Keys + {zip};
    }
  }

  lemma {:induction false} MadeLater(u: Setup, events: seq<Event>, states: seq<State>, i: nat, n: nat,
                                     past: set<string>)
    requires Run(u, events, states) && i <= n <= |events| && GrownFrom(past, states[i].made.Keys)
    ensures GrownFrom(past, states[n].made.Keys)
    decreases n - i
  {
    if i < n {
      NextAddsNewer(u, events, states, i, past);
      MadeLater(u, events, states, i + 1, n, past);
    }
  }

  lemma NextAddsNewer(u: Setup, events: seq<Event>, states: seq<State>, n: nat, past: set<string>)
    requires Run(u, events, states) && n < |events| && GrownFrom(past, states[n].made.Keys)
    ensures GrownFrom(past, states[n + 1].made.Keys)
  {
    SoundHolds(u, events, states, n);
    StepAddsNewer(u, states[n], events[n], past);
  }

  /** When `keep` files are newer than all of `past`, none of `past` is among the newest. */
  lemma PastIsDropped(keep: nat, past: set<string>, files: set<string>)
    requires GrownFrom(past, files) && keep <= |files - past|
    ensures Newest(keep, files) !! past
  {
    forall f | f in past
      ensures f !in Newest(keep, files)
    {
      SubsetSize(files - past, Newer(f, files));
    }
  }

  /** Whatever was lost before position `i`: once the gaps are acceptable from there on and as many
      backups have been made since as the local machine keeps, a successful sync is exact again. */
  lemma ExactAgain(u: Setup, events: seq<Event>, states: seq<State>, i: nat, k: nat)
    requires Run(u, events, states) && i <= k < |events| && GapsOk(u, events, states, i, k + 1)
    requires events[k].Sync? && EventOutcome(u, states[k], events[k]).ok
    requires 0 < u.localKeep <= |states[k].made.Keys - states[i].made.Keys|
    ensures var due, after := Retained(u.localKeep, states[k].made.Keys), Backups(states[k + 1].local, u.name);
            due <= after && (SeesAll(events[k].dir.expurge) ==> after == due)
  {
    var s, past := states[k], states[i].made.Keys;
    SoundHolds(u, events, states, k);
    assert GapsOk(u, events, states, i, k);
    LocalHoldsSince(u, events, states, i, k, past);
    GapCovered(u, s, past);
    MadeLater(u, events, states, i, k, past);
    PastIsDropped(u.localKeep, past, s.made.Keys);
    SyncKeepsDue(u, s, events[k].dir);
    SyncExactness(u, s, events[k].dir);
  }

  // ---------- contents, under any failures ----------

  /** The run of this event wrote `f`, completely or not. */
  ghost predicate WrittenBy(u: Setup, e: Event, f: string, content: Entry) {
    e.Backup? && Printable(e.now) && f == ZipName(u.name, e.now) && content in {File(Stored(e)), File(e.partial)}
  }

  /** A download of `f` broke off in this sync, having written this much. */
  ghost predicate BrokeOffIn(e: Event, f: string, content: Entry) {
    e.Sync? && e.dir.remote.download(f).BreaksOff? && content == File(e.dir.remote.download(f).written)
  }

  ghost predicate Written(u: Setup, events: seq<Event>, f: string, content: Entry) {
    exists e :: e in events && WrittenBy(u, e, f, content)
  }

  ghost predicate BrokeOff(events: seq<Event>, f: string, content: Entry) {
    exists e :: e in events && BrokeOffIn(e, f, content)
  }

  ghost predicate MadeByRuns(u: Setup, events: seq<Event>, made: map<string, Entry>) {
    forall f :: f in made ==> Written(u, events, f, made[f])
  }

  ghost predicate LocalExplained(u: Setup, events: seq<Event>, s: State) {
    forall f :: f in Backups(s.local, u.name) ==>
      (f in s.made && s.local[f] == s.made[f]) || BrokeOff(events, f, s.local[f])
  }

  lemma BackupWrites(u: Setup, s: State, e: Event)
    requires e.Backup? && Enabled(u, s, e) && Sound(u, s)
    ensures var zip, out := ZipName(u.name, e.now), EventOutcome(u, s, e).entries;
            zip in out ==> WrittenBy(u, e, zip, out[zip])
  {
    ZipIsNewest(u, s, e.now);
    RunEndings(s.remote, u.name, u.remote, e.now, e.archive, e.partial, e.faults);
  }

  lemma StillWritten(u: Setup, events: seq<Event>, e: Event, f: string, content: Entry)
    requires Written(u, events, f, content) || WrittenBy(u, e, f, content)
    ensures Written(u, events + [e], f, content)
  {
  }

  lemma StillBrokeOff(events: seq<Event>, e: Event, f: string, content: Entry)
    requires BrokeOff(events, f, content) || BrokeOffIn(e, f, content)
    ensures BrokeOff(events + [e], f, content)
  {
  }

  lemma StillMadeByRuns(u: Setup, events: seq<Event>, e: Event, made: map<string, Entry>)
    requires MadeByRuns(u, events, made)
    ensures MadeByRuns(u, events + [e], made)
  {
    forall f | f in made
      ensures Written(u, events + [e], f, made[f])
    {
      StillWritten(u, events, e, f, made[f]);
    }
  }

  lemma MadeGrows(u: Setup, events: seq<Event>, e: Event, made: map<string, Entry>, zip: string, content: Entry)
    requires MadeByRuns(u, events, made) && WrittenBy(u, e, zip, content)
    ensures MadeByRuns(u, events + [e], made[zip := content])
  {
    StillMadeByRuns(u, events, e, made);
    StillWritten(u, events, e, zip, content);
  }

  /** A backup run leaves the local machine alone and only adds a name to what was made. */
  lemma LocalStaysExplained(u: Setup, events: seq<Event>, s: State, e: Event, s': State)
    requires LocalExplained(u, events, s) && s'.local == s.local
    requires forall f :: f in s.made ==> f in s'.made && s'.made[f] == s.made[f]
    ensures LocalExplained(u, events + [e], s')
  {
    forall f | f in Backups(s.local, u.name) && BrokeOff(events, f, s.local[f])
      ensures BrokeOff(events + [e], f, s.local[f])
    {
      StillBrokeOff(events, e, f, s.local[f]);
    }
  }

  lemma BackupMade(u: Setup, events: seq<Event>, s: State, e: Event)
    requires e.Backup? && Enabled(u, s, e) && MadeByRuns(u, events, s.made)
    requires var zip, out := ZipName(u.name, e.now), EventOutcome(u, s, e).entries;
             zip in out ==> WrittenBy(u, e, zip, out[zip])
    ensures MadeByRuns(u, events + [e], Next(u, s, e).made)
  {
    var zip, out := ZipName(u.name, e.now), EventOutcome(u, s, e).entries;
    if zip in out {
      MadeGrows(u, events, e, s.made, zip, out[zip]);
    } else {
      StillMadeByRuns(u, events, e, s.made);
    }
  }

  lemma ZipIsNew(u: Setup, s: State, e: Event)
    requires e.Backup? && Enabled(u, s, e) && Sound(u, s)
    ensures ZipName(u.name, e.now) !in s.made
  {
    ZipIsNewest(u, s, e.now);
  }

  lemma BackupLeavesLocal(u: Setup, events: seq<Event>, s: State, e: Event)
    requires e.Backup? && Enabled(u, s, e) && ZipName(u.name, e.now) !in s.made && LocalExplained(u, events, s)
    ensures LocalExplained(u, events + [e], Next(u, s, e))
  {
    LocalStaysExplained(u, events, s, e, Next(u, s, e));
  }

  lemma SyncedFrom(u: Setup, s: State, d: SyncDir, f: string)
    requires Enabled(u, s, Sync(d)) && Sound(u, s) && f in Backups(Next(u, s, Sync(d)).local, u.name)
    ensures var out := Next(u, s, Sync(d)).local;
            || (f in s.local && out[f] == s.local[f])
            || (f in s.made && out[f] == s.made[f])
            || BrokeOffIn(Sync(d), f, out[f])
  {
    SyncContents(s.local, d, u.localKeep, f);
    PullableIsBackups(u, s, d);
  }

  lemma SyncExplained(u: Setup, events: seq<Event>, s: State, e: Event)
    requires e.Sync? && Enabled(u, s, e) && Sound(u, s) && LocalExplained(u, events, s)
    ensures LocalExplained(u, events + [e], Next(u, s, e))
  {
    var s' := Next(u, s, e);
    forall f | f in Backups(s'.local, u.name)
      ensures (f in s'.made && s'.local[f] == s'.made[f]) || BrokeOff(events + [e], f, s'.local[f])
    {
      SyncedFrom(u, s, e.dir, f);
      if BrokeOffIn(e, f, s'.local[f]) {
        StillBrokeOff(events, e, f, s'.local[f]);
      } else if f in s.local && s'.local[f] == s.local[f] {
        assert f in Backups(s.local, u.name);
        if BrokeOff(events, f, s.local[f]) {
          StillBrokeOff(events, e, f, s.local[f]);
        }
      }
    }
  }

  lemma NextExplained(u: Setup, events: seq<Event>, states: seq<State>, n: nat)
    requires Run(u, events, states) && n < |events|
    requires MadeByRuns(u, events[..n], states[n].made) && LocalExplained(u, events[..n], states[n])
    ensures MadeByRuns(u, events[..n + 1], states[n + 1].made) && LocalExplained(u, events[..n + 1], states[n + 1])
  {
    var s, e := states[n], events[n];
    assert events[..n + 1] == events[..n] + [e];
    SoundHolds(u, events, states, n);
    if e.Backup? {
      BackupWrites(u, s, e);
      BackupMade(u, events[..n], s, e);
      ZipIsNew(u, s, e);
      BackupLeavesLocal(u, events[..n], s, e);
    } else {
      StillMadeByRuns(u, events[..n], e, s.made);
      SyncExplained(u, events[..n], s, e);
    }
  }

  /** Contents over every run, whatever fails and however long the gaps: each backup on the local
      machine is what the remote run of that name wrote, or what some sync had written when its
      download of it broke off. */
  lemma {:induction false} ContentsHold(u: Setup, events: seq<Event>, states: seq<State>, n: nat)
    requires Run(u, events, states) && n <= |events|
    ensures MadeByRuns(u, events[..n], states[n].made)
    ensures LocalExplained(u, events[..n], states[n])
  {
    if n > 0 {
      ContentsHold(u, events, states, n - 1);
      NextExplained(u, events, states, n - 1);
    }
  }

  // ---------- histories in which every run succeeds ----------

  ghost function WithProduct(name: ProfileName, produced: map<string, Entry>, e: Event): map<string, Entry>
    requires e.Backup? ==> Printable(e.now)
  {
    if e.Backup? then produced[ZipName(name, e.now) := File(Stored(e))] else produced
  }

  /** The backups of the profile made by a list of events, with their contents. */
  ghost function Produced(name: ProfileName, events: seq<Event>): map<string, Entry>
    requires forall e :: e in events && e.Backup? ==> Printable(e.now)
  {
    if events == [] then map[]
    else
      WithProduct(name, Produced(name, events[..|events| - 1]), events[|events| - 1])
  }

  /** How many backups the events end with since their last sync. */
  ghost function SinceSync(events: seq<Event>): nat {
    if events == [] || events[|events| - 1].Sync? then 0 else 1 + SinceSync(events[..|events| - 1])
  }

  /** An event that succeeds and whose expurge sees all files. */
  ghost predicate Succeeds(u: Setup, s: State, e: Event)
    requires Enabled(u, s, e)
  {
    EventOutcome(u, s, e).ok && SeesAll(ExpurgeOf(e))
  }

  ghost predicate AllSucceed(u: Setup, events: seq<Event>, states: seq<State>)
    requires Run(u, events, states)
  {
    forall i :: 0 <= i < |events| ==> Succeeds(u, states[i], events[i])
  }

  lemma PrintableTimes(u: Setup, events: seq<Event>, states: seq<State>)
    requires Run(u, events, states)
    ensures forall e :: e in events && e.Backup? ==> Printable(e.now)
  {
  }

  /** Beyond the invariant: both machines hold exactly what they must, with the right contents. */
  ghost predicate ExactInv(u: Setup, s: State, produced: map<string, Entry>, gap: nat) {
    Inv(u, s) && ExactlyHolds(u, s, produced, gap)
  }

  ghost predicate ExactlyHolds(u: Setup, s: State, produced: map<string, Entry>, gap: nat) {
    && s.made == produced
    && s.gap == gap
    && Backups(s.remote, u.name) == Retained(u.remote.keep, produced.Keys)
    && Backups(s.local, u.name) == Retained(u.localKeep, produced.Keys - Newest(gap, produced.Keys))
    && forall f :: f in Backups(s.local, u.name) ==> s.local[f] == produced[f]
  }

  /** With all runs successful the remote machine holds exactly what it must. */
  lemma RemoteExact(keep: int, before: set<string>, after: set<string>, all: set<string>, zip: string)
    requires before == Retained(keep, all) && after == Retained(keep, before + {zip})
    requires Grows(keep, all, zip)
    ensures after == Retained(keep, all + {zip})
  {
    if keep > 0 {
      NewestSandwich(keep, before + {zip}, all + {zip});
    }
  }

  lemma StepStaysExact(u: Setup, s: State, zip: string, now: DateTime, out: Outcome, archive: string,
                       produced: map<string, Entry>, gap: nat)
    requires ExactlyHolds(u, s, produced, gap) && Backups(s.local, u.name) <= s.made.Keys
    requires zip !in s.made && zip in out.entries && out.entries[zip] == File(archive)
    requires Backups(out.entries, u.name) == Retained(u.remote.keep, produced.Keys + {zip})
    requires Newest(gap + 1, produced.Keys + {zip}) == Newest(gap, produced.Keys) + {zip}
    ensures ExactlyHolds(u, AfterBackup(s, zip, now, out), produced[zip := File(archive)], gap + 1)
  {
    var s' := AfterBackup(s, zip, now, out);
    var all := s'.made.Keys;
    assert all == produced.Keys + {zip};
    assert all - Newest(gap + 1, all) == produced.Keys - Newest(gap, produced.Keys);
  }

  lemma StepExact(u: Setup, s: State, zip: string, now: DateTime, out: Outcome, archive: string,
                  produced: map<string, Entry>, gap: nat)
    requires ExactlyHolds(u, s, produced, gap) && Backups(s.local, u.name) <= s.made.Keys
    requires KeepsNewest(u.name, u.remote.keep, s.remote, out, zip, archive, true) && out.ok
    requires Grows(u.remote.keep, s.made.Keys, zip)
    requires Newest(s.gap + 1, s.made.Keys + {zip}) == Newest(s.gap, s.made.Keys) + {zip}
    ensures ExactlyHolds(u, AfterBackup(s, zip, now, out), produced[zip := File(archive)], gap + 1)
  {
    assert Backups(out.entries, u.name) == Retained(u.remote.keep, produced.Keys + {zip}) by {
      RemoteExact(u.remote.keep, Backups(s.remote, u.name), Backups(out.entries, u.name), produced.Keys, zip);
    }
    StepStaysExact(u, s, zip, now, out, archive, produced, gap);
  }

  lemma BackupExact(u: Setup, s: State, e: Event, produced: map<string, Entry>, gap: nat)
    requires e.Backup? && Enabled(u, s, e) && Succeeds(u, s, e) && ExactInv(u, s, produced, gap)
    ensures ExactInv(u, Next(u, s, e), produced[ZipName(u.name, e.now) := File(Stored(e))], gap + 1)
  {
    BackupKeepsSound(u, s, e);
    BackupKeepsLocal(u, s, e, {});
    BackupRun(u, s, e);
    BackupGrowth(u, s, e);
    StepExact(u, s, ZipName(u.name, e.now), e.now, EventOutcome(u, s, e), Stored(e), produced, gap);
  }

  lemma PulledContent(u: Setup, s: State, d: SyncDir, produced: map<string, Entry>, gap: nat, f: string)
    requires Enabled(u, s, Sync(d)) && EventOutcome(u, s, Sync(d)).ok && ExactInv(u, s, produced, gap)
    requires f in Backups(Next(u, s, Sync(d)).local, u.name)
    ensures f in produced && Next(u, s, Sync(d)).local[f] == produced[f]
  {
    SyncSuccess(s.local, d, u.localKeep);
    PullableIsBackups(u, s, d);
    if f in s.local {
      assert f in Backups(s.local, u.name);
    } else {
      assert f in Backups(s.remote, u.name);
    }
  }

  lemma SyncStaysExact(u: Setup, s: State, e: Event, produced: map<string, Entry>, gap: nat)
    requires e.Sync? && Enabled(u, s, e) && Succeeds(u, s, e) && ExactInv(u, s, produced, gap)
    requires GapOk(u, gap)
    ensures ExactInv(u, Next(u, s, e), produced, 0)
  {
    SyncKeepsSound(u, s, e);
    SyncKeepsLocal(u, s, e, {});
    SyncExact(u, s, e.dir);
    var s' := Next(u, s, e);
    assert e == Sync(e.dir);
    assert produced.Keys - Newest(0, produced.Keys) == produced.Keys;
    forall f | f in Backups(s'.local, u.name)
      ensures s'.local[f] == produced[f]
    {
      PulledContent(u, s, e.dir, produced, gap, f);
    }
  }

  /** The file that exactly `rank` others are newer than. */
  lemma FileOfRank(files: set<string>, rank: nat) returns (f: string)
    requires rank < |files|
    ensures f in files && |Newer(f, files)| == rank
  {
    AscendingSpec(files);
    var i := |files| - 1 - rank;
    f := Ascending(files)[i];
    NewerInIncreasing(Ascending(files), i);
    assert f in Elements(Ascending(files));
  }

  /** After too long a gap a sync cannot be exact: some backup to be kept was made and deleted on
      the remote machine without ever being pulled. */
  lemma LongGapLoses(u: Setup, s: State, e: Event, produced: map<string, Entry>, gap: nat)
    requires e.Sync? && Enabled(u, s, e) && EventOutcome(u, s, e).ok && ExactInv(u, s, produced, gap)
    requires !GapOk(u, gap)
    ensures Backups(Next(u, s, e).local, u.name) != Retained(u.localKeep, produced.Keys)
  {
    var files := produced.Keys;
    var f := FileOfRank(files, u.remote.keep);
    assert f in Retained(u.localKeep, files);
    SyncSuccess(s.local, e.dir, u.localKeep);
    PullableIsBackups(u, s, e.dir);
    assert f in Newest(gap, files);
    assert f !in Backups(s.local, u.name) + Backups(s.remote, u.name);
  }

  /** After the sync at position `i`, the local machine holds exactly the backups of the profile it
      must keep of all produced so far, byte for byte. */
  ghost predicate ExactAfter(u: Setup, events: seq<Event>, states: seq<State>, i: nat)
    requires Run(u, events, states) && i < |events|
    requires forall e :: e in events && e.Backup? ==> Printable(e.now)
  {
    var local, produced := states[i + 1].local, Produced(u.name, events[..i]);
    && Backups(local, u.name) == Retained(u.localKeep, produced.Keys)
    && forall f :: f in Backups(local, u.name) ==> f in produced && local[f] == produced[f]
  }

  ghost predicate ShortGaps(u: Setup, events: seq<Event>, n: nat)
    requires n <= |events|
  {
    forall i :: 0 <= i < n && events[i].Sync? ==> GapOk(u, SinceSync(events[..i]))
  }

  lemma ProducedNext(name: ProfileName, events: seq<Event>, n: nat)
    requires n < |events| && forall e :: e in events && e.Backup? ==> Printable(e.now)
    ensures Produced(name, events[..n + 1]) == WithProduct(name, Produced(name, events[..n]), events[n])
    ensures SinceSync(events[..n + 1]) == if events[n].Sync? then 0 else SinceSync(events[..n]) + 1
  {
    assert events[..n + 1][..n] == events[..n] && events[..n + 1][n] == events[n];
  }

  lemma ExactNext(u: Setup, s: State, e: Event, produced: map<string, Entry>, gap: nat)
    requires Enabled(u, s, e) && Succeeds(u, s, e) && ExactInv(u, s, produced, gap)
    requires e.Sync? ==> GapOk(u, gap)
    ensures ExactInv(u, Next(u, s, e), WithProduct(u.name, produced, e), if e.Sync? then 0 else gap + 1)
  {
    if e.Backup? {
      BackupExact(u, s, e, produced, gap);
    } else {
      SyncStaysExact(u, s, e, produced, gap);
    }
  }

  lemma ExactStart(u: Setup, s: State)
    requires Initial(u, s)
    ensures ExactInv(u, s, map[], 0)
  {
  }

  lemma {:induction false} ExactInvHolds(u: Setup, events: seq<Event>, states: seq<State>, n: nat)
    requires Run(u, events, states) && AllSucceed(u, events, states)
    requires forall e :: e in events && e.Backup? ==> Printable(e.now)
    requires n <= |events| && ShortGaps(u, events, n)
    ensures ExactInv(u, states[n], Produced(u.name, events[..n]), SinceSync(events[..n]))
  {
    if n == 0 {
      ExactStart(u, states[0]);
    } else {
      ExactInvHolds(u, events, states, n - 1);
      ProducedNext(u.name, events, n - 1);
      ExactNext(u, states[n - 1], events[n - 1], Produced(u.name, events[..n - 1]), SinceSync(events[..n - 1]));
    }
  }

  lemma {:induction false} ExactnessNeedsShortGaps(u: Setup, events: seq<Event>, states: seq<State>, n: nat)
    requires Run(u, events, states) && AllSucceed(u, events, states)
    requires forall e :: e in events && e.Backup? ==> Printable(e.now)
    requires n <= |events|
    requires forall i :: 0 <= i < n && events[i].Sync? ==> ExactAfter(u, events, states, i)
    ensures ShortGaps(u, events, n)
  {
    if n > 0 {
      ExactnessNeedsShortGaps(u, events, states, n - 1);
      var s, e := states[n - 1], events[n - 1];
      if e.Sync? && !GapOk(u, SinceSync(events[..n - 1])) {
        ExactInvHolds(u, events, states, n - 1);
        LongGapLoses(u, s, e, Produced(u.name, events[..n - 1]), SinceSync(events[..n - 1]));
      }
    }
  }

  lemma ShortGapsSuffice(u: Setup, events: seq<Event>, states: seq<State>, i: nat)
    requires Run(u, events, states) && AllSucceed(u, events, states)
    requires forall e :: e in events && e.Backup? ==> Printable(e.now)
    requires i < |events| && events[i].Sync? && ShortGaps(u, events, i + 1)
    ensures ExactAfter(u, events, states, i)
  {
    assert ShortGaps(u, events, i);
    ExactInvHolds(u, events, states, i);
    var produced, gap := Produced(u.name, events[..i]), SinceSync(events[..i]);
    SyncStaysExact(u, states[i], events[i], produced, gap);
    assert produced.Keys - Newest(0, produced.Keys) == produced.Keys;
  }

  /** The two-machine theorem. In a history of successful runs, every sync leaves the local machine
      exactly the newest backups ever produced if and only if, before every sync, the number of
      backups since the previous one was at most what the remote machine keeps (or the remote keeps
      all, or the local machine keeps no more than the remote does). */
  lemma TwoMachineHistory(u: Setup, events: seq<Event>, states: seq<State>)
    requires Run(u, events, states) && AllSucceed(u, events, states)
    ensures forall e :: e in events && e.Backup? ==> Printable(e.now)
    ensures (forall i :: 0 <= i < |events| && events[i].Sync? ==> ExactAfter(u, events, states, i))
            <==> (forall i :: 0 <= i < |events| && events[i].Sync? ==> GapOk(u, SinceSync(events[..i])))
  {
    PrintableTimes(u, events, states);
    if forall i :: 0 <= i < |events| && events[i].Sync? ==> ExactAfter(u, events, states, i) {
      ExactnessNeedsShortGaps(u, events, states, |events|);
    }
    if ShortGaps(u, events, |events|) {
      forall i | 0 <= i < |events| && events[i].Sync?
        ensures ExactAfter(u, events, states, i)
      {
        ShortGapsSuffice(u, events, states, i);
      }
    }
  }
}
