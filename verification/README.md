# Verification of goback

A Dafny model of goback, a tool that makes dated zip backups, keeps the newest ones, and can pull
the backups another machine has made. The model covers the parts whose correctness is not visible
from any one function:

- **Names and dates** (`Text`, `Calendar`, `BackupName`): backups are called
  `<profile>_<year>_<day>_<month>-<h>:<m>:<s>_backup.zip`. Printing a name, recognising it by the
  profile's pattern and parsing its date back are proved to be inverse to each other, for profile
  names with any number of underscores. The day comes before the month, so names do not sort by
  time; instants are computed from days counted with leap years and proved to order the dates, and the
  dates that count as real are those of the Gregorian calendar in figures.
- **Retention** (`StableSort`, `Retention`, `Expurge`): `findToDelete` filters, stable-sorts in place
  and drops the `keep` newest. It is characterised by ranks, position by position, and on sorted
  listings by a set, `Newest(keep, files)`: the files that fewer than `keep` others are newer than.
  The lemma everything else rests on is `Retention.NewestSandwich`: a set of files between the newest
  of a larger set and that set has the same newest. `Store.Directory` is a directory whose entries the
  runs change step by step; what the operating system decides (each failing step, each removal, the
  bytes of a broken write, the names a listing leaves out, an archive torn on closing) is a parameter.
- **Runs** (`LocalRun`, `SftpSync`, `SyncRun`, `History`): a local run writes a zip or cleans up, then
  expurges; a sync run pulls, for each directory, the missing remote backups and expurges, and what a
  whole run leaves is stated for any list of directories, with names repeated or not. `History`
  is the two-machine setup of the user documentation: one machine backs up, another pulls. It is a state
  machine over any sequence of such runs. With any steps failing, every successful sync leaves
  the newest backups ever left on the remote machine, and exactly those if its expurge saw all files, as
  long as the gaps between syncs were acceptable; after a gap that was too long it does so again once enough newer backups have been made;
  and every local file is what a backup run wrote or what a download that broke off had written. In
  histories of successful runs exactness is an equivalence, down to the bytes of each file.
- **The ssh walk** (`SshWalk`, `StatListing`): the recursive `WalkDir`, driven by a callback with memory
  that may skip or stop, is proved equal to following one flat preorder with a skip target at each
  step; the targets are proved to prune exactly the subtrees they should. The listing text is printed
  and read back.
- **Archives** (`FileTree`, `Archive`, `ArchiveRun`, `WholeRun`): when a local or a remote copy of a tree
  succeeds, which entries it adds, what a copy that fails has added before, the two compared, that no
  entry name occurs twice, and exactly when the zip of a successful run holds the profile's entries.
- **Profile loading** (`Profiles`): which records load, and which run-time guards that makes unreachable.

All claims about a profile name hold for names without glob metacharacters and path separators (the
subset type `BackupName.ProfileName`), for which the compiled pattern is literal text followed by digit
classes. Printed years are 0 to 9999, as the four-digit layout requires. Dates are what the name shows:
wall-clock times of the machine that printed them, parsed back as UTC.

## Where the code differs from what is said about it

- A new backup is meant to be the newest (app/goback/expurge.go:90-95 keeps the newest ones). Names hold
  wall-clock time and are parsed back as UTC, so a clock that is set back, as at the end of summer time,
  stamps a new backup earlier than an existing one. `LocalRun.ClockSetBack`: with one existing backup and
  `keep` 1, a run in which nothing fails keeps its new backup exactly when its clock reads later than the
  existing stamp, and otherwise deletes the backup it has just made and leaves the directory as it was.
  `LocalRun.BackupSurvivesByClock` is the exact condition in general.
- Errors while the archive is closed are discarded (lib/zip/zip.go:18-25), though the last buffered bytes
  and the central directory are written only then. The run succeeds all the same, and its expurge may
  remove complete older backups. `WholeRun.ZipHoldsArchive`: the zip of a successful run, if retention kept
  it, holds the profile's entries exactly when closing did not tear it. `WholeRun.TornZipReplaces`: with
  `keep` 1 and one older backup, such a run leaves nothing but its torn zip.
- The glob that lists a directory for expurging reports no error when the directory cannot be read, or only
  in part (app/goback/expurge.go:27), so the expurge succeeds with old backups left over. Nothing that
  retention keeps is ever lost by this (`Expurge.LeftSafe`), and exactly the newest are left if and only if
  there was no surplus or every backup was listed (`Expurge.LeftExact`). Results that say "exactly" about
  runs and syncs carry this condition; those that bound the directory hold for any listing.
- `extractTime` is documented to see only valid dates (app/goback/expurge.go:99). The digit pattern
  also accepts impossible ones, such as month 99; they all parse to midnight of 1 January of year 1 and
  tie with one another. A matching file has a real date exactly when it bears a name that the profile can
  print: `BackupName.RealDateIsPrinted`. (`LocalRun.TiedBackupIsLost` remarks that a new backup stamped with that very
  moment would lose the tie; no real clock reads it.)
- `delZipAndErr` is documented to delete the incomplete zip (app/goback/goback.go:544-545). It deletes
  whatever bears that name, so a failed run restores the directory exactly when the name was free:
  `LocalRun.FailedBackupRestores`.
- A download that breaks off leaves a partial file, and later syncs compare names only.
  `SftpSync.PulledContents` says exactly when a successful pull leaves the remote contents.
- The two-machine setup loses backups when more are made between two syncs than the remote machine
  keeps, unless the local machine keeps no more than the remote one. `History.TwoMachineHistory` states
  this as an if-and-only-if.
- A local copy stores only the target of a symbolic link, yet opens the link first, so one dangling link
  that is not excluded fails the whole backup: `Archive.DanglingLinkFails`.
- A directory holding anything but directories and regular files, for instance a symbolic link, cannot
  be listed over ssh: `StatListing.OtherKindSpoilsListing`. Any output is listed exactly when it holds no
  marker text and every non-empty line is readable, and reading it panics exactly when it holds no marker
  text and its first unreadable line has fewer than twenty bytes, because the error message slices the
  line there: `StatListing.ListingOutcome`. `StatListing.LinkPanics` is such a listing, of a link `/a/b`.
- A local and a remote copy of one tree differ exactly when a symbolic link below its root is copied:
  `Archive.LocalAndRemoteAgree`. A root that is itself a symbolic link is followed by the local copy. The
  remote copy checks what the link leads to but walks the link itself, and so copies nothing, or fails:
  `Archive.RemoteRootLink`.
- Database types are not validated on loading. For every record that loads, the unknown-type branch of
  the backup is unreachable exactly when each lower-cased type is one of the six known ones:
  `Profiles.DatabaseGuardExact`. Container names are validated for two of the three kinds of database in a
  container; they are all there exactly when those of the third kind, MariaDB, are:
  `Profiles.ContainerGuardExact`. `Profiles.DatabaseTypeUnchecked` is a record that loads with both defects.

## Model

| member | source | states |
|---|---|---|
| Calendar.InstantOrder | app/goback/expurge.go:84-88 | For valid dates, the comparison of parsed instants that sorts the files is the lexicographic order on year, month, day, hour, minute and second, and equal instants are equal dates |
| Calendar.RealDates | app/goback/expurge.go:107 | The dates accepted are exactly those within the month lengths, leap-year rule and clock ranges of the Gregorian calendar, given in figures |
| Calendar.MonthTable | app/goback/expurge.go:84-88 | The days before each month that go into the compared time are those of the table of the calendar, one more after February in leap years |
| Calendar.YearsClosed | app/goback/expurge.go:84-88 | The days before each year that go into the compared time are 365 each and one per leap year, counted by division |
| Calendar.EveryDayOnce | app/goback/expurge.go:84-88 | Every day number is that of exactly one accepted date |
| BackupName.MatchShape | app/goback/expurge.go:67-69 | The pattern of a profile matches exactly the names made of the profile name, an underscore, nineteen characters of the date layout and the fixed tail; nothing before or after |
| BackupName.StampFound | app/goback/expurge.go:100-107 | Counting the pieces split at underscores from the end finds the date of every matching name, however many underscores the profile name has |
| BackupName.NameRoundTrip | app/goback/goback.go:592-595 | A printed name is matched by its own profile's pattern and its time is read back to the second, for every profile name and every date with a four-digit year |
| BackupName.NameReprint | app/goback/expurge.go:98-110 | Conversely, a matching name with a real date is the very name printed for that date |
| BackupName.DateInDigits | app/goback/expurge.go:98-110 | The time read from a matching name is what its digits say, at year, day, month, hour, minute and second in this order, if that is a date of the calendar; otherwise there is none |
| BackupName.RealDateIsPrinted | app/goback/expurge.go:98-110 | A file matching a profile has a real date if and only if it is a name that profile prints for some date |
| BackupName.SameTimeSameFile | app/goback/expurge.go:84-88 | Two files of one profile with real dates that compare equal in time are the same file, so such files never tie |
| BackupName.PrintedOrder | app/goback/goback.go:25-27 | Sorting printed names by parsed time is sorting by civil time although the day is printed before the month |
| BackupName.TextOrderIsNotTimeOrder | app/goback/goback.go:25-27 | Text order would be wrong: a pair of dates whose names sort the other way round |
| BackupName.OneProfilePerFile | app/goback/sftpsync.go:110-124 | A file name matches the pattern of at most one profile name |
| BackupName.MatchIsZip | app/goback/expurge.go:27-35 | No backup of a profile escapes the zip listing that retention works on |
| StableSort.SortInPlace | app/goback/expurge.go:83-88 | The in-place stable sort produces the sorted sequence of its input |
| StableSort.SortedByKey | app/goback/expurge.go:83-88 | The sorted sequence lists every input position once, by strictly increasing (key, original position) |
| StableSort.HigherCount | app/goback/expurge.go:83-95 | The element sorted to position k has exactly length - 1 - k elements above it in that order |
| StableSort.KeyOrderUnique | app/goback/expurge.go:83-88 | There is only one listing of the positions by strictly increasing (key, original position) |
| StableSort.AnyStableSort | app/goback/expurge.go:83-88 | Whatever sorts by key and keeps equal keys in order gives the very sequence of the modelled sort |
| Retention.FindToDelete | app/goback/expurge.go:56-96 | The method returns nothing to delete for a non-positive count, an error for an empty name, and otherwise the age-sorted matches without the last `keep`, as characterised by DeletedByRank and ToDeleteIsSurplus |
| Retention.MatchingInOrder | app/goback/expurge.go:71-81 | The matches are all matching files of the listing and nothing else, in its order |
| Retention.DeletedByRank | app/goback/expurge.go:71-95 | The match at a filtered position is returned exactly when at least `keep` matches have a higher (time, position); max(0, matches - keep) files are returned, oldest first, for any listing including one with repeated names or ties |
| Retention.ToDeleteIsSurplus | app/goback/expurge.go:71-95 | When files with equal times appear in name order, the result is the age-ordered surplus of the set of matches |
| Retention.SurplusSpec | app/goback/expurge.go:90-95 | The surplus is exactly the files outside the newest `keep`, oldest first, and there are max(0, files - keep) of them |
| Retention.ListingOrderIrrelevant | app/goback/expurge.go:56-96 | Permuting the listing changes nothing when its matching names are distinct and carry real dates |
| Retention.MatchingPermuted | app/goback/expurge.go:71-81 | A permuted listing has the same matches with the same multiplicities |
| Retention.NewestSize | app/goback/expurge.go:90-95 | There are exactly `keep` newest files, or all of them when there are fewer |
| Retention.NewestAboveRest | app/goback/expurge.go:94-95 | Every file kept is newer than every file not kept |
| Retention.NewestSandwich | app/goback/expurge.go:56-96 | A set of files between the newest of a larger set and that set has the same newest files |
| Store.Directory.ListZips | app/goback/expurge.go:27-35 | The listing is sorted by name and holds exactly the zip entries that reading the directory returned; names it did not return are missing without an error |
| Expurge.ExpurgeDir | app/goback/expurge.go:17-54 | The method leaves the directory and returns the result that removing the surplus it sees one file at a time, oldest first, up to the first failure, gives |
| Expurge.ListedSurplus | app/goback/expurge.go:27-40 | On the sorted zip listing of a directory, complete or not, the files picked are the surplus of the backups of the profile that are on it |
| Expurge.LeftSafe | app/goback/expurge.go:27-53 | Whatever the listing leaves out, no backup among the newest `keep` is removed |
| Expurge.LeftExact | app/goback/expurge.go:27-53 | Exactly the newest `keep` are left if and only if retention is off, there are no more than `keep`, or every backup was listed |
| Expurge.LeftSize | app/goback/expurge.go:27-53 | How many are left: all but the number of listed ones beyond `keep` |
| Expurge.ExpurgeStopsMidway | app/goback/expurge.go:46-53 | However an expurge ends, it has removed a prefix of the oldest-first order of the surplus it sees; it succeeds only after all of it and stops early only at a file that cannot be removed |
| Expurge.MidwaySafe | app/goback/expurge.go:46-53 | After any number of removals, with any listing, the `keep` newest backups are all there and no other entry is gone |
| Expurge.ExpurgeResumes | app/goback/expurge.go:37-53 | After an interruption at any point, and with any listing, a run that sees all files and in which nothing fails ends in the directory it would have given in the first place |
| Expurge.ExpurgeSafe | app/goback/expurge.go:17-54 | What every expurge keeps in any outcome and with any listing: the newest backups, all contents, and every file of other profiles; a success leaves exactly the newest if and only if there was no surplus or all backups were listed |
| Expurge.ExpurgeSucceeds | app/goback/expurge.go:17-54 | An expurge succeeds if and only if the path is a directory and, when a number is to be kept, there is a name and no file of the surplus it sees withstands removal; without a directory or a name it changes nothing |
| LocalRun.BackupLocal | app/goback/goback.go:317-347 | Whether the zip exists afterwards, complete, torn, incomplete or not at all, for each way the backup may go |
| LocalRun.RunLocalProfile | app/goback/goback.go:137-180 | The method takes the directory through the steps of the run outcome in the source's order |
| LocalRun.RunEndings | app/goback/goback.go:137-180 | The exact or bounded contents of the directory after each of the five endings of a run, under any zip name |
| LocalRun.RunSucceeds | app/goback/goback.go:137-180 | A run succeeds if and only if the destination is prepared, the zip opened, the backup made, a demanded owner and mode set, and the expurge removes all of the surplus it sees |
| LocalRun.RunExact | app/goback/goback.go:137-180 | A successful run leaves exactly what retention keeps of the old backups and the new one if and only if there was no surplus or all of them were listed |
| LocalRun.RunLeavesOthers | app/goback/goback.go:137-180 | No outcome of a run adds, removes or changes a file that is not the profile's |
| LocalRun.FailedBackupRestores | app/goback/goback.go:546-553 | After a failed backup whose cleanup succeeds, the directory is as before if and only if the zip's name was free |
| LocalRun.NewBackupSurvives | app/goback/goback.go:144-174 | The number of backups after a successful run, and that the new one is among them if and only if the expurge does not see it or fewer than `keep` others that it sees are newer |
| LocalRun.BackupSurvivesByClock | app/goback/expurge.go:83-95 | The same condition in terms of the clock: fewer than `keep` listed ones are stamped later than the run, as long as no undated file stands for the very same instant |
| LocalRun.LatestBackupSurvives | app/goback/expurge.go:90-95 | The new backup is kept when every existing one is stamped earlier, or at the same instant with a real date |
| LocalRun.ClockSetBack | app/goback/goback.go:592-595 | With one existing backup and `keep` 1, a run in which no step fails and whose listing is complete ends with only its new zip if its clock reads later than the existing stamp, and otherwise with the directory it found |
| SftpSync.FindDifferentProfiles | app/goback/sftpsync.go:108-138 | The nested loops return the remote matches that are not local, in remote order |
| SftpSync.Missing | app/goback/sftpsync.go:119-137 | A file is wanted exactly when it is remote, matches the profile and is not local |
| SftpSync.SftpDownload | app/goback/sftpsync.go:74-106 | What one download leaves locally for each way it may end, including the partial file of one that breaks off |
| SftpSync.SyncRemoteBackups | app/goback/sftpsync.go:14-72 | The method changes the directory by downloading the wanted files in order up to the first failure |
| SftpSync.WantedInOrder | app/goback/sftpsync.go:43-59 | A pull goes for exactly the listed names that are no directories there, match the profile and are no files here, in the listing's order |
| SftpSync.DownloadsInOrder | app/goback/sftpsync.go:61-106 | What a pull leaves under every name: the remote content for each download before the first that cannot be made, exactly the bytes written if that one broke off, and everything else as it was |
| SftpSync.PullSucceeds | app/goback/sftpsync.go:14-72 | A pull succeeds if and only if both directories can be listed, there is a name and every wanted file can be fetched; one that cannot list changes nothing |
| SftpSync.PullSafe | app/goback/sftpsync.go:51-71 | Any pull writes only missing backups of the profile; a successful one adds all of them and changes nothing that was there |
| SftpSync.PulledContents | app/goback/sftpsync.go:61-71 | After a successful pull all remote backups are present byte for byte if and only if no different local entry bore one of their names |
| SftpSync.SyncSuccess | app/goback/goback.go:497-514 | A successful pull and expurge leaves local and remote backups together except the surplus its expurge sees, every local file as it was |
| SftpSync.SyncLeavesExactly | app/goback/goback.go:497-514 | That is exactly what retention keeps of them if and only if there was no surplus or all of them were listed |
| SftpSync.SyncNeverLoses | app/goback/goback.go:497-514 | Whatever fails, no backup among the newest of local and remote together is dropped, and other files are untouched |
| SftpSync.SyncSucceeds | app/goback/goback.go:497-514 | When the environment lets every step succeed, a sync succeeds if and only if no local subdirectory bears the name of a remote backup |
| SftpSync.SyncStops | app/goback/goback.go:497-514 | A directory is expurged only after a pull that succeeded; the exact success condition of both together |
| SftpSync.SyncContents | app/goback/sftpsync.go:61-106 | However a sync ends, each local backup is the file that was there, or the remote one, or what a download that broke off had written |
| SftpSync.RetainedAgain | app/goback/goback.go:497-514 | What must be kept of any part that holds what was retained, together with more files, is what must be kept of all of them |
| SftpSync.SyncFixpoint | app/goback/goback.go:497-514 | Repeating a successful sync with an unchanged remote and complete listings gives the same directory, although older backups are pulled and removed again |
| SyncRun.RunSyncProfile | app/goback/goback.go:455-517 | The run syncs the directories in order, stops at the first error, and an error from closing the client spoils only the result |
| SyncRun.RunInTurn | app/goback/goback.go:497-516 | The run succeeds if and only if each directory, synced from what the ones before left, does; it ends with what the last left, or with what the first failing one left, none after it being started |
| SyncRun.CleanRunSucceeds | app/goback/goback.go:497-516 | When nothing fails and no local subdirectory bears the name of a remote backup, the whole run succeeds |
| SyncRun.SyncTouchesOnly | app/goback/goback.go:497-514 | In any outcome only files of the profile's directory names change |
| SyncRun.SyncSettles | app/goback/goback.go:497-514 | After a successful run of any list, names repeated or not, every listed name holds all that retention keeps of the local backups and of all remote ones of the directories with that name, and nothing else than those; exactly what retention keeps when the last expurge for the name saw all files; a kept file that was local is as it was, any other comes from the first listed directory holding it |
| SyncRun.SyncOrderIrrelevant | app/goback/goback.go:497-514 | The directories may be listed in any order and any number of times: successful runs with complete listings end in the same state, as long as directories of one name agree on the files they share |
| SyncRun.DistinctNamesAgree | app/goback/goback.go:497-514 | They do when no name is listed twice |
| History.EverySuccessfulSyncExact | README.md:48-51 | Over every run of the two machines, with backups and syncs failing anywhere and expurges seeing any part of the files: after acceptable gaps, each successful sync leaves all of the newest backups ever left on the remote machine, also those since deleted there, and exactly those when its own expurge saw all files |
| History.TwoMachineHistory | README.md:48-51 | In a history of successful runs whose expurges see all files, every sync leaves exactly the newest backups ever produced, byte for byte as their runs left them, if and only if each gap has at most as many backups as the remote keeps, or the remote keeps all, or the local keeps no more than the remote |
| History.InvHolds | app/goback/goback.go:137-180 | The invariant of both directories holds at every point of every run with acceptable gaps |
| History.SoundHolds | app/goback/goback.go:137-180 | Whatever the gaps and failures: the remote machine holds its newest backups as they were made, and neither machine holds any other |
| History.SyncExactness | app/goback/goback.go:497-514 | A successful sync leaves exactly what the local machine must keep of everything ever made if and only if the two machines together still have all of that, and there was no surplus or all of it was listed |
| History.LocalHoldsSince | app/goback/goback.go:497-514 | While gaps are acceptable nothing more goes missing than already was |
| History.ExactAgain | README.md:48-51 | Whatever was lost before: after as many new backups as the local machine keeps, with acceptable gaps since, a successful sync again leaves all that is due, and exactly that with a complete listing |
| History.ContentsHold | app/goback/sftpsync.go:74-106 | At every point of every run each local backup is what the remote run of that name wrote, completely or not, or what some sync had written when its download broke off |
| History.BackupRun | app/goback/goback.go:137-180 | Any backup run leaves the remote machine's newest backups and at most adds its own zip |
| History.SyncExact | app/goback/goback.go:497-514 | One successful sync from a state of the invariant leaves all that is due, and exactly that with a complete listing |
| History.LongGapLoses | app/goback/goback.go:497-514 | After too long a gap no sync can be exact: some backup to be kept was made and deleted remotely without being pulled |
| SshWalk.Walker.WalkNode | lib/ssh/scp.go:47-79 | The recursive method makes the calls and returns the signal of the walk function |
| SshWalk.Walker.WalkDir | lib/ssh/scp.go:33-44 | The same for a whole walk, also when the root cannot be read; the skip signal is never returned |
| SshWalk.WalkIsPrunedPreorder | lib/ssh/scp.go:33-79 | For every tree and callback the walk equals following the flat preorder with its skip targets |
| SshWalk.SkipsPruneSubtrees | lib/ssh/scp.go:49-77 | A skip from a directory's first call jumps over exactly the later calls inside it; from a file or a listing-error call, exactly those inside the parent |
| SshWalk.WalkTrail | lib/ssh/scp.go:47-79 | Every walk is a forward trail: the next possible call on continue, the target on skip, and nothing more after any other answer, which is the result |
| SshWalk.CallsTell | lib/ssh/scp.go:33-79 | Every call of a walk is about a node of the tree and tells the truth: of a file or a directory, and a listing error only as the error of that directory |
| SshWalk.OwnCalls | lib/ssh/scp.go:33-64 | A file or directory is first told of without an error, a listing error right after that, and a root that cannot be read with its error alone |
| StatListing.BaseOfChild | lib/ssh/scp.go:179-197 | The base of a path below a directory is its last component |
| StatListing.ReadDir | lib/ssh/scp.go:121-172 | The method returns what the text reads as; an error on closing is added to the entries already read |
| StatListing.ParseLine | lib/ssh/scp.go:176-203 | A printed line parses to its kind and base name |
| StatListing.LinesRead | lib/ssh/scp.go:176-203 | The three texts that begin a line, and the kind each is read as, for every path |
| StatListing.MarkersAreErrors | lib/ssh/scp.go:147-155 | Output with either of the two marker texts anywhere in it is an error without entries |
| StatListing.BaseEdges | lib/ssh/scp.go:179-197 | The base of an empty path, of the root, and of a path that ends in a slash |
| StatListing.ListingRoundTrip | lib/ssh/scp.go:147-170 | What was printed for directories and regular files is read back in order if and only if no marker text occurs in the output |
| StatListing.ChildNamesReadBack | lib/ssh/scp.go:134-144 | For the children of one directory the names read back are the children's names |
| StatListing.ListingOutcome | lib/ssh/scp.go:147-205 | For any lines: the output is listed if and only if it holds no marker text and every line is empty or readable; reading it panics if and only if it holds no marker text and its first unreadable line has fewer than twenty bytes |
| StatListing.OtherKindSpoilsListing | lib/ssh/scp.go:147-205 | One line of another kind among printed ones makes reading the output fail, with a panic if and only if there is no marker text and the line has fewer than twenty bytes |
| StatListing.LinkPanics | lib/ssh/scp.go:205 | The listing of a directory holding only a link with a short path panics |
| FileTree.WalkMeetsLeavesOnce | app/goback/files.go:49-98 | The walk meets exactly the places holding a leaf that is not excluded, each once, in path order when listings are sorted |
| FileTree.SameLeafAt | app/goback/files.go:135-145 | Two listings of the same tree in different orders hold the same leaves at the same places |
| Archive.Handler.AddFile | lib/zip/zip.go:50-66 | Adds the entry exactly when the handler is open and nothing fails |
| Archive.Handler.AddSymlink | lib/zip/zip.go:68-107 | Adds the link's target as an entry if the link leads anywhere; a failing read or write leaves the entry started; on a closed handler nothing reaches the archive although no error is returned |
| Archive.Handler.WriteFile | lib/zip/zip.go:109-122 | Adds the entry with all bytes, or fails and leaves at most the entry with the bytes written so far |
| Archive.Handler.FileWriter | lib/zip/zip.go:124-135 | Starts an entry exactly when the handler is open and creation succeeds |
| Archive.Handler.Close | lib/zip/zip.go:18-25 | Closes the handler; whether the file then holds the entries depends on the final writes, whose errors are not reported |
| Archive.WalkLocal | app/goback/files.go:49-98 | The walk succeeds exactly when nothing it meets fails; it then has added the entries of all leaves below a node in order, and otherwise a prefix of them and at most one unfinished entry |
| Archive.WalkListing | app/goback/files.go:49-98 | The same for the entries of one listing |
| Archive.SmoothLeaves | app/goback/files.go:49-98 | When every place can be read, a walk succeeds exactly if each leaf that is not excluded can be added |
| Archive.SmoothExactly | app/goback/files.go:49-98 | With any failures, a walk succeeds if and only if every place of the tree can be read and each leaf that is not excluded can be added |
| Archive.DanglingLinkFails | lib/zip/zip.go:68-76 | When nothing fails, a local copy succeeds if and only if it walks a directory in which every link that is not excluded leads somewhere |
| Archive.CopyLocalFiles | app/goback/files.go:20-104 | A local copy succeeds exactly on a directory, or a link to one, whose walk succeeds; it adds exactly the entries of what is walked, or on failure a prefix of them and at most one unfinished entry |
| Archive.CopyRemoteFiles | app/goback/files.go:107-188 | The stack walk of a remote copy succeeds exactly when no place it meets fails and every link it copies can be read; it adds exactly the entries of the recursive preorder, or on failure a prefix of them and at most one unfinished entry |
| Archive.LocalCopyComplete | app/goback/files.go:20-104 | The entries are exactly the non-directory, non-excluded nodes, each once, in walk order, named by the base of the profile's path and the relative path |
| Archive.LocalEntriesAre | app/goback/files.go:68-97 | For a directory called n, wherever it is: a file or link at a place below it is in the archive, under n and the place and with its content or target, if and only if its path is not excluded |
| Archive.RemoteEntriesAre | app/goback/files.go:143-182 | The same for a remote copy, where a link stores the content of the file it leads to |
| Archive.NamedWithoutBase | app/goback/files.go:80 | The entry names of copies of the root directory and of the working directory |
| Archive.RootsWalked | app/goback/files.go:23-46 | A local copy walks the directory at its path, or the one that a symbolic link there leads to, and nothing else |
| Archive.LocalAndRemoteAgree | app/goback/files.go:49-98 | Local and remote copies of one directory, listed in any order, put the same entries into the archive if and only if no symbolic link below it is copied |
| Archive.RemoteRootLink | app/goback/files.go:126-185 | A remote root that is a link to a directory is walked as the link: the copy goes through only if the root path itself is excluded, and then adds nothing |
| ArchiveRun.BackupLocalDatabase | app/goback/goback.go:183-244 | All of a dump is added under the folder of its type, with the path cleaned, exactly when the type is known and nothing fails; a failure leaves at most the started entry |
| ArchiveRun.PlainDumpName | app/goback/goback.go:188-189 | Without a separator in the database's name, the cleaned path is the folder and the dump file |
| ArchiveRun.CleaningRules | app/goback/goback.go:188-189 | What cleaning does to a path: empty components and `.` go, `..` takes away a name before it, all else stays |
| ArchiveRun.DumpIsHeld | app/goback/goback.go:183-244 | The entry of a database holds all of its dump, under `_mysqldump/` for the four MySQL and MariaDB types and `_postgres/` for the two Postgres ones |
| ArchiveRun.CopyDirs | app/goback/goback.go:324-331 | The directories are copied in order; all of them are there exactly when each copy succeeds |
| ArchiveRun.DumpDbs | app/goback/goback.go:333-342 | The same for the databases |
| ArchiveRun.BackupLocal | app/goback/goback.go:317-347 | The backup succeeds if and only if the zip is created, every directory copy succeeds and every database has a known type and a dump, whether or not closing the archive fails; it then has added the entries of all directories, then of all dumps, in profile order, its last entries holding all text of each dump, and the file holds them exactly when closing did not fail; a failed backup leaves the archive open with a prefix of them |
| ArchiveRun.WholeArchive | app/goback/goback.go:317-347 | The archive holds the entries of every directory and of every dump, and nothing else |
| ArchiveRun.ArchiveNamesDistinct | app/goback/goback.go:317-347 | No entry name occurs twice when base names are ordinary, distinct and not dump folders, and database names have no separator and are distinct within each folder |
| WholeRun.RunLocal | app/goback/goback.go:137-180 | The run with the archive built by the backup: its outcome is that of a local run whose archive is the encoding of the profile's entries, whose backup fails exactly when one of them cannot be made, and whose zip may be torn on closing |
| WholeRun.ZipHoldsArchive | lib/zip/zip.go:18-25 | A successful run backed up everything; its zip, if retention kept it, holds exactly the profile's entries if and only if closing did not tear it; when nothing else fails the run succeeds if and only if every directory and database can be backed up |
| WholeRun.TornZipReplaces | lib/zip/zip.go:18-25 | With `keep` 1 and one older backup, a run in which only closing the archive fails succeeds and leaves only the torn zip |
| Profiles.Draft.ValidateSshConfig | internal/profile/profile.go:137-152 | Accepts exactly the valid ssh parts and fills in a missing port |
| Profiles.ProcessDirectories | internal/profile/profile.go:165-199 | Succeeds exactly when every directory is valid, and keeps them in order |
| Profiles.ProcessDatabases | internal/profile/profile.go:202-224 | Succeeds exactly when every container that is checked has a name, and keeps the databases in order |
| Profiles.LoadProfileV1 | internal/profile/profile.go:73-106 | Loads exactly the records that meet one explicit condition, and what they load to |
| Profiles.LoadsExactly | internal/profile/profile.go:73-224 | The records that load, in terms of the texts in them: known types, names, hosts and paths that are not empty, patterns that compile, something to back up, container names |
| Profiles.LoadedFields | internal/profile/profile.go:73-224 | What a record loads to, field by field: everything as in the record but types in lower case and port 22 for a missing one of a connecting profile |
| Profiles.TypesDispatched | app/goback/goback.go:91-100 | Which profile type is run how, and which ssh type stands for which authentication |
| Profiles.LoadedPassesGuards | app/goback/goback.go:91-100 | For any profile that loads: its type is dispatched, names that retention and sync use are not empty, and connecting profiles have a mapped authentication, a host and a port |
| Profiles.DatabaseGuardExact | app/goback/goback.go:240-242 | For every record that loads, dumps that all work succeed, never reaching the unknown-type branch, if and only if every lower-cased database type is one of the six known ones |
| Profiles.ContainerGuardExact | internal/profile/profile.go:202-224 | For every record that loads, all databases that run in a container have a container name if and only if the MariaDB ones of the record have |
| Profiles.DatabaseTypeUnchecked | internal/profile/profile.go:202-224 | A record that loads with a type that has no branch, and with a MariaDB container without a name |
| Profiles.LoadProfiles | internal/profile/profile.go:230-266 | A directory that cannot be used is an error with no profiles; otherwise the loaded profiles and the reported errors of the candidate files are returned, and there is no error exactly when all of them load |
| Profiles.CandidatesAre | internal/profile/profile.go:241-249 | The candidates are exactly the files found whose names end in `.backup.yaml`, in walk order |
| Profiles.EveryFileAccounted | internal/profile/profile.go:254-265 | Every candidate file is, in order, the next loaded profile or the next error; none is lost |
| Profiles.BackupRunner.LoadProfilesDir | app/goback/goback.go:51-62 | The valid profiles are appended even when others failed to load, none when the directory cannot be used; success exactly when the directory is there and every candidate loads |
| Profiles.BackupRunner.Run | app/goback/goback.go:65-82 | Every profile is run whatever happened before, and the result is an error exactly when one failed |

## Left out

- Profile names with glob metacharacters: the name is spliced unescaped into the pattern and may then match other text; only literal names are modelled.
- Store.Directory.ListZips: does not model destination paths with glob metacharacters, which the zip listing would expand.
- Remote profile runs (app/goback/goback.go:351-394): the destination directory itself is passed as the zip path there, so the guarantees of local runs do not apply; only the copy of remote files is modelled.
- The glob semantics of exclude patterns: exclusion is an arbitrary predicate on paths.
- YAML decoding and file reading.
- Profiles.LoadProfiles: does not model an error met while walking the profile directory, which the walk function ignores.
- Lower-casing of types: an arbitrary function, since only its result is compared.
- SSH connections, authentication, keys and host checks; mysqldump and pg_dump processes: steps that succeed or fail.
- What the operating system loses after it has reported success, and crashes of the machine: a step that reports success has its effect, apart from the discarded errors named above.
- The zip format and compression: an archive is the sequence of its entries, and its bytes are an arbitrary function of them.
- Ownership and mode changes, notification, logging and the command line: effects that only succeed or fail, or are not modelled at all.
- Runs that overlap in time: each run sees the directories as the previous one left them, although any single step may fail.
- Sorting inside the standard library: the sort is an insertion sort; any stable sort gives the same sequence, by StableSort.AnyStableSort.
- SshWalk.Walker.WalkNode: paths are lists of names, so joining does not clean names such as `..`, which a directory listing never contains.
