/** `Backup` of internal/run/run.go: the nightly sequence of dump, retention and remote copy, and what
    it guarantees from end to end for the zips of the night. */
module Nightly {
  import opened Text
  import opened Calendar
  import opened Files
  import opened Overwrite
  import opened CrashSafety
  import opened BackupRun
  import opened Retention
  import opened Sync

  // ----- Names --------------------------------------------------------------

  predicate IsFileChar(c: char) {
    'a' <= c <= 'z' || 'A' <= c <= 'Z' || '0' <= c <= '9' || c in "_-."
  }

  /** The safe characters by their codes: digits, letters, hyphen, dot and underscore. */
  lemma FileChars(c: char)
    ensures var n := c as int; IsFileChar(c) <==> 48 <= n <= 57 || 65 <= n <= 90 || 97 <= n <= 122 || n in {45, 46, 95}
  {
    assert c in "_-." <==> c == '_' || c == '-' || c == '.';
  }

  /** `hostnameForFile` */
  function HostnameForFile(host: string): (r: string)
    ensures r != "" && forall i :: 0 <= i < |r| ==> IsFileChar(r[i])
    ensures host == "" ==> r == "localhost"
    ensures host != "" ==> |r| == |host| && forall i :: 0 <= i < |r| ==> r[i] == if IsFileChar(host[i]) then host[i] else '_'
    ensures host != "" && (forall i :: 0 <= i < |host| ==> IsFileChar(host[i])) ==> r == host
  {
    if host == "" then "localhost"
    else seq(|host|, i requires 0 <= i < |host| => if IsFileChar(host[i]) then host[i] else '_')
  }

  function NamePrefix(today: int, host: string): string {
    PREFIX + DateKey(today) + "_" + host + "_"
  }

  lemma ZipName(today: int, host: string, db: string)
    ensures Zip(NamePrefix(today, host) + db) == BackupName(today, host, db)
  {
    hide DateKey;
  }

  // ----- The night ----------------------------------------------------------

  /** How far the run gets before the dump. */
  datatype Start = DiskLow | StartFailed | StartTimeout | ServerError | ListError | Ready

  /** The readings of a directory during a night. */
  datatype Reading = ForRecovery | ForRetention | ForOther | ForSync | ForRemote

  /** What the outside world does during one night: the days on which the dump and the two retention passes
      take place, each directory listing, what recovery has to pass over, files that cannot be examined, failing deletions, and the network. */
  datatype Night = Night(
    start: Start, mkdirFails: bool, dumpDay: int, localDay: int, otherDay: int,
    lister: (Reading, Disk) -> Listing, passed: set<string>, blind: set<string>, stuck: set<string>, otherStuck: set<string>,
    connected: bool, net: Network)

  ghost predicate ValidNight(night: Night) {
    && (forall r, d :: ListingOf(night.lister(r, d), d))
    && ValidNetwork(night.net)
    && night.dumpDay <= night.localDay <= night.otherDay
  }

  datatype Config = Config(host: string, retain: Retain, remote: bool, m: Mode)

  datatype Outcome = Aborted | NoDatabases | DumpFailed | SyncFailed | Finished

  // ----- What is promised ---------------------------------------------------

  /** No file is dated after `day`, not even one that recovery would bring back. */
  ghost predicate NoFuture(d: Disk, day: int) {
    && (forall n :: n in d && NameDate(n).Some? ==> NameDate(n).value <= day)
    && (forall b :: Sav(b) in d && NameDate(Zip(b)).Some? ==> NameDate(Zip(b)).value <= day)
  }

  /** There is a mirror, it knows the name of the zip, and the zip can be examined. */
  predicate Visible(cfg: Config, night: Night, j: Job) {
    cfg.remote && '\n' !in j.db && BackupName(night.dumpDay, HostnameForFile(cfg.host), j.db) !in night.blind
  }

  /** An ordinary night: the year has four digits, and the daily count covers the midnights crossed. */
  predicate Calm(cfg: Config, night: Night) {
    0 <= Year(night.dumpDay) <= 9999 && night.otherDay - night.dumpDay <= cfg.retain.daily
  }

  /** The zip of a database is in the directory as it was closed. */
  ghost predicate HasZip(d: Disk, day: int, host: string, jobs: seq<Job>, j: Job) {
    var n := BackupName(day, host, j.db);
    n in d && exists k :: k in jobs && k.db == j.db && d[n] == k.closed
  }

  /** All zips of the night are there, and if they are to be the `last`, nothing is newer. */
  ghost predicate Stage(d: Disk, day: int, host: string, jobs: seq<Job>, last: bool) {
    && (last ==> forall n :: n in d && NameDate(n).Some? ==> NameDate(n).value <= day)
    && (forall j :: j in jobs ==> HasZip(d, day, host, jobs, j))
  }

  /** The zip has survived retention, is among the files a restore would take, if it is to be the `last`, and is on the
      remote side, if the mirror can see it: as a whole upload, if the copy there was older. */
  ghost predicate Delivered(cfg: Config, night: Night, jobs: seq<Job>, local: Disk, remote: Disk, after: Disk, last: bool, j: Job)
    requires ValidNetwork(night.net)
  {
    var host := HostnameForFile(cfg.host);
    var n := BackupName(night.dumpDay, host, j.db);
    && HasZip(local, night.dumpDay, host, jobs, j)
    && (last ==> IsLatest(local, None, n))
    && (Visible(cfg, night, j) ==> n in after)
    && (Visible(cfg, night, j) && (n !in remote || local[n].mtime > remote[n].mtime) ==>
          after[n].data == Wire(cfg.m, night.net.header(n), local[n].data))
  }

  /** Why the mirror fails: a directory cannot be listed, there is no connection, or a needed upload does not get done. */
  ghost predicate MirrorBreaks(cfg: Config, night: Night, local: Disk, remote: Disk) {
    || night.lister(ForSync, local).Unreadable? || !night.connected || night.lister(ForRemote, remote).Unreadable?
    || exists n :: IsBackupName(n) && Stalls(cfg.m, night.net, local - night.blind, remote, n)
  }

  /** The remote directory is a mirror: every backup that can be examined is there, as a whole upload if one was needed and
      as it was if not; what else there is of backups could not be removed; and everything else is as it was. */
  ghost predicate Mirrors(cfg: Config, night: Night, all: Disk, before: Disk, after: Disk)
    requires ValidNetwork(night.net)
  {
    var local := all - night.blind;
    && (forall n :: n in local && IsBackupName(n) ==> n in after && MirroredFile(cfg, night, local[n], before, after[n], n))
    && (forall n :: n in after && IsBackupName(n) && n !in local ==> n in night.net.stuck && Lookup(before, n) == Some(after[n]))
    && (forall n :: !IsBackupName(n) ==> Lookup(after, n) == Lookup(before, n))
  }

  ghost predicate MirroredFile(cfg: Config, night: Night, l: File, before: Disk, r: File, n: string)
    requires ValidNetwork(night.net)
  {
    if NeedUpload(cfg.m, l, before, n) then r.data == Wire(cfg.m, night.net.header(n), l.data) else Lookup(before, n) == Some(r)
  }

  /** A mirror run that broke off has removed nothing, and written only beginnings of uploads that were needed. */
  ghost predicate BrokeOff(cfg: Config, night: Night, all: Disk, before: Disk, after: Disk)
    requires ValidNetwork(night.net)
  {
    var local := all - night.blind;
    && before.Keys <= after.Keys
    && forall n :: Lookup(after, n) != Lookup(before, n) ==>
         && n in local && IsBackupName(n) && n in after && NeedUpload(cfg.m, local[n], before, n)
         && after[n].data <= Wire(cfg.m, night.net.header(n), local[n].data)
         && (night.net.outcome(n).Cut? && night.net.outcome(n).bytes <= |Wire(cfg.m, night.net.header(n), local[n].data)| ==>
               |after[n].data| == night.net.outcome(n).bytes)
  }

  // ----- The stages ---------------------------------------------------------

  /** Recovery, as far as it gets, brings back nothing from the future. */
  lemma RecoveredIsDated(d: Disk, listing: Listing, passed: set<string>, day: int, n: string)
    requires ListingOf(listing, d) && NoFuture(d, day)
    requires n in Exec(d, RecoveryOps(d, listing, passed)) && NameDate(n).Some?
    ensures NameDate(n).value <= day
  {
    var b := n[..|n| - 4];
    assert n == Zip(b);
    hide Exec, RecoverOps, Leftovers, NameDate, Zip, Sav;
    var e := Exec(d, RecoveryOps(d, listing, passed));
    if listing.Entries? {
      RecoverNamed(d, listing.names, passed, b);
      assert Lookup(e, Zip(b)) == Settled(d, b) || Lookup(e, Zip(b)) == Lookup(d, Zip(b));
    } else {
      NoRecovery(d, passed);
    }
  }

  lemma NoRecovery(d: Disk, passed: set<string>)
    ensures Exec(d, RecoverOps(d, Leftovers([], passed))) == d
  {}

  /** After a complete dump the first stage is reached, however far recovery got before it; nothing is newer if
      nothing was. */
  lemma StageAfterDump(d: Disk, listing: Listing, passed: set<string>, day: int, host: string, jobs: seq<Job>)
    requires ListingOf(listing, d) && 0 <= Year(day) <= 9999
    requires DoneCount(Exec(d, RecoveryOps(d, listing, passed)), NamePrefix(day, host), jobs) == |jobs|
    ensures Stage(Exec(d, SessionOps(d, listing, passed, NamePrefix(day, host), jobs)), day, host, jobs, NoFuture(d, day))
  {
    hide Exec, RecoveryOps, NameDate, Zip, Sav, NamePrefix, Year, BackupName, RunOps, DoneCount, WithZips, HasZip, NoFuture;
    var ops := RecoveryOps(d, listing, passed);
    var prefix := NamePrefix(day, host);
    var e := Exec(d, ops);
    ExecConcat(d, ops, RunOps(e, prefix, jobs));
    RunEffect(e, prefix, jobs);
    assert jobs[..|jobs|] == jobs;
    var f := WithZips(e, prefix, jobs) - Savs(prefix, jobs);
    forall n | NoFuture(d, day) && n in f && NameDate(n).Some?
      ensures NameDate(n).value <= day
    {
      DumpedIsDated(d, listing, passed, e, day, host, jobs, n);
    }
    forall j | j in jobs
      ensures HasZip(f, day, host, jobs, j)
    {
      DumpedHasZip(e, day, host, jobs, j);
    }
  }

  lemma DumpedIsDated(d: Disk, listing: Listing, passed: set<string>, e: Disk, day: int, host: string, jobs: seq<Job>, n: string)
    requires ListingOf(listing, d) && NoFuture(d, day) && 0 <= Year(day) <= 9999
    requires e == Exec(d, RecoveryOps(d, listing, passed))
    requires n in WithZips(e, NamePrefix(day, host), jobs) && NameDate(n).Some?
    ensures NameDate(n).value <= day
  {
    hide Exec, RecoveryOps, NameDate, Zip, NamePrefix, Year, BackupName, WithZips, NoFuture;
    var prefix := NamePrefix(day, host);
    WithZipsContents(e, prefix, jobs, n);
    if j :| j in jobs && n == Zip(prefix + j.db) {
      ZipName(day, host, j.db);
      BackupNameIsDated(day, host, j.db);
    } else {
      assert n in e;
      RecoveredIsDated(d, listing, passed, day, n);
    }
  }

  lemma DumpedHasZip(e: Disk, day: int, host: string, jobs: seq<Job>, j: Job)
    requires j in jobs
    ensures HasZip(WithZips(e, NamePrefix(day, host), jobs) - Savs(NamePrefix(day, host), jobs), day, host, jobs, j)
  {
    NamesDiffer();
    hide Zip, Sav, NamePrefix, BackupName, WithZips;
    var prefix := NamePrefix(day, host);
    var n := BackupName(day, host, j.db);
    ZipName(day, host, j.db);
    WithZipsContents(e, prefix, jobs, n);
    assert n !in Savs(prefix, jobs);
    var k :| k in jobs && n == Zip(prefix + k.db) && Lookup(WithZips(e, prefix, jobs), n) == Some(k.closed);
    ZipName(day, host, k.db);
    BackupNameInjective(day, host, j.db, k.db);
  }

  /** Retention, at most as many days later as the daily count says, keeps the stage. */
  lemma StageAfterRetention(d: Disk, day: int, host: string, jobs: seq<Job>, last: bool, today: int, r: Retain, stuck: set<string>)
    requires Stage(d, day, host, jobs, last) && today - day <= r.daily && 0 <= Year(day) <= 9999
    ensures Stage(Pruned(d, today, r, stuck), day, host, jobs, last)
  {
    hide NameDate, Year, BackupName, WeeklyKept, MonthlyKept, YearlyKept;
    var e := Pruned(d, today, r, stuck);
    forall j | j in jobs
      ensures HasZip(e, day, host, jobs, j)
    {
      assert HasZip(d, day, host, jobs, j);
      BackupNameIsDated(day, host, j.db);
    }
  }

  lemma NoNewline(host: string)
    ensures '\n' !in HostnameForFile(host)
  {
    var r := HostnameForFile(host);
    assert !IsFileChar('\n');
  }

  /** What is there before an error-free `Sync` is delivered by it. */
  lemma StageDelivered(cfg: Config, night: Night, jobs: seq<Job>, last: bool, all: Disk, remote: Disk, names: seq<string>, j: Job)
    requires ValidNetwork(night.net) && 0 <= Year(night.dumpDay) <= 9999 && j in jobs && Visible(cfg, night, j)
    requires Stage(all, night.dumpDay, HostnameForFile(cfg.host), jobs, last)
    requires forall n :: n in names <==> n in all - night.blind && IsBackupName(n)
    requires !Synced(cfg.m, night.net, all - night.blind, remote, names).failed
    ensures Delivered(cfg, night, jobs, all, remote, Synced(cfg.m, night.net, all - night.blind, remote, names).remote, last, j)
  {
    var local := all - night.blind;
    hide NameDate, Year, BackupName, HostnameForFile, IsBackupName, Uploads, Complete, Wire;
    var host := HostnameForFile(cfg.host);
    var n := BackupName(night.dumpDay, host, j.db);
    BackupNameIsDated(night.dumpDay, host, j.db);
    NoNewline(cfg.host);
    assert HasZip(all, night.dumpDay, host, jobs, j);
    UploadsComplete(cfg.m, night.net, local, remote, names, n);
    SyncMirrorsNames(cfg.m, night.net, local, remote, names);
    assert Lookup(Synced(cfg.m, night.net, local, remote, names).remote, n)
        == Lookup(Uploads(cfg.m, night.net, local, remote, names).remote, n);
    if n !in remote || local[n].mtime > remote[n].mtime {
      SentWhole(cfg.m, night.net, local[n], n);
    }
  }

  /** Neither the listing nor the mirror looks into a zip: a partial one of the newest day is taken for restoring, and
      mirrored, like any other. */
  lemma PartialIsTaken(m: Mode, net: Network, local: Disk, remote: Disk, names: seq<string>, day: int, host: string, db: string)
    requires 0 <= Year(day) <= 9999 && '\n' !in host && '\n' !in db && BackupName(day, host, db) in local
    requires forall n :: n in local && NameDate(n).Some? ==> NameDate(n).value <= day
    requires ValidNetwork(net) && forall n :: n in names <==> n in local && IsBackupName(n)
    requires !Synced(m, net, local, remote, names).failed
    ensures IsLatest(local, None, BackupName(day, host, db))
    ensures BackupName(day, host, db) in Synced(m, net, local, remote, names).remote
  {
    hide NameDate, Year, BackupName, IsBackupName, Synced;
    BackupNameIsDated(day, host, db);
    SyncMirrorsNames(m, net, local, remote, names);
  }

  /** What an error-free `Sync` leaves. */
  lemma SyncedMirrors(cfg: Config, night: Night, all: Disk, remote: Disk, names: seq<string>)
    requires ValidNetwork(night.net) && forall n :: n in names <==> n in all - night.blind && IsBackupName(n)
    requires !Synced(cfg.m, night.net, all - night.blind, remote, names).failed
    ensures Mirrors(cfg, night, all, remote, Synced(cfg.m, night.net, all - night.blind, remote, names).remote)
  {
    hide IsBackupName, Uploads, NeedUpload, Wire;
    var local := all - night.blind;
    var after := Synced(cfg.m, night.net, local, remote, names).remote;
    SyncMirrorsNames(cfg.m, night.net, local, remote, names);
    forall n | n in names
      ensures n in after && MirroredFile(cfg, night, local[n], remote, after[n], n)
    {
      UploadsComplete(cfg.m, night.net, local, remote, names, n);
      assert Lookup(after, n) == Lookup(Uploads(cfg.m, night.net, local, remote, names).remote, n);
    }
    forall n | n in after && n !in names
      ensures Lookup(remote, n) == Some(after[n])
    {
      UploadsTouch(cfg.m, night.net, local, remote, names, n);
    }
  }

  /** What a failing upload leaves. */
  lemma SyncedBrokeOff(cfg: Config, night: Night, all: Disk, remote: Disk, names: seq<string>)
    requires ValidNetwork(night.net) && forall n :: n in names <==> n in all - night.blind && IsBackupName(n)
    requires Synced(cfg.m, night.net, all - night.blind, remote, names).failed
    ensures BrokeOff(cfg, night, all, remote, Synced(cfg.m, night.net, all - night.blind, remote, names).remote)
  {
    hide IsBackupName, Uploads, NeedUpload, Wire;
    var local := all - night.blind;
    var after := Synced(cfg.m, night.net, local, remote, names).remote;
    forall n
      ensures n in remote ==> n in after
      ensures Lookup(after, n) != Lookup(remote, n) ==> n in names && n in after && NeedUpload(cfg.m, local[n], remote, n)
      ensures Lookup(after, n) != Lookup(remote, n) ==> after[n].data <= Wire(cfg.m, night.net.header(n), local[n].data)
      ensures Lookup(after, n) != Lookup(remote, n) && night.net.outcome(n).Cut? &&
              night.net.outcome(n).bytes <= |Wire(cfg.m, night.net.header(n), local[n].data)| ==>
              |after[n].data| == night.net.outcome(n).bytes
    {
      UploadsTouch(cfg.m, night.net, local, remote, names, n);
    }
  }

  lemma NothingBroke(cfg: Config, night: Night, all: Disk, remote: Disk)
    requires ValidNetwork(night.net)
    ensures BrokeOff(cfg, night, all, remote, remote)
  {
    hide IsBackupName, NeedUpload, Wire;
  }

  lemma SentWhole(m: Mode, net: Network, l: File, n: string)
    requires ValidNetwork(net) && net.outcome(n).Done?
    ensures Complete(m, net, l, n).data == Wire(m, net.header(n), l.data)
  {}

  /** What the mirror does not see is still there. */
  lemma LocalDelivered(cfg: Config, night: Night, jobs: seq<Job>, local: Disk, remote: Disk, after: Disk, last: bool, j: Job)
    requires ValidNetwork(night.net) && 0 <= Year(night.dumpDay) <= 9999 && j in jobs && !Visible(cfg, night, j)
    requires Stage(local, night.dumpDay, HostnameForFile(cfg.host), jobs, last)
    ensures Delivered(cfg, night, jobs, local, remote, after, last, j)
  {
    hide NameDate, Year, BackupName, HostnameForFile;
    var host := HostnameForFile(cfg.host);
    BackupNameIsDated(night.dumpDay, host, j.db);
    assert HasZip(local, night.dumpDay, host, jobs, j);
  }

  /** The backup directory after the dump. */
  function Dumped(cfg: Config, night: Night, d: Disk, jobs: seq<Job>): Disk {
    Exec(d, SessionOps(d, night.lister(ForRecovery, d), night.passed, NamePrefix(night.dumpDay, HostnameForFile(cfg.host)), jobs))
  }

  /** A directory after its retention pass, which needs a listing. */
  function Retained(cfg: Config, night: Night, reading: Reading, d: Disk, today: int, stuck: set<string>): Disk {
    if night.lister(reading, d).Unreadable? then d else Pruned(d, today, cfg.retain, stuck)
  }

  /** The directory can be made, and every database is dumped. */
  predicate DumpDone(cfg: Config, night: Night, d: Disk, jobs: seq<Job>) {
    var e := Exec(d, RecoveryOps(d, night.lister(ForRecovery, d), night.passed));
    !night.mkdirFails && DoneCount(e, NamePrefix(night.dumpDay, HostnameForFile(cfg.host)), jobs) == |jobs|
  }

  lemma DumpStage(cfg: Config, night: Night, d: Disk, jobs: seq<Job>)
    requires ValidNight(night) && 0 <= Year(night.dumpDay) <= 9999
    requires DumpDone(cfg, night, d, jobs)
    ensures Stage(Dumped(cfg, night, d, jobs), night.dumpDay, HostnameForFile(cfg.host), jobs, NoFuture(d, night.dumpDay))
  {
    hide NoFuture, Exec, SessionOps, RecoveryOps, DoneCount, Year, HostnameForFile, NamePrefix, Stage, BackupName;
    assert ListingOf(night.lister(ForRecovery, d), d);
    StageAfterDump(d, night.lister(ForRecovery, d), night.passed, night.dumpDay, HostnameForFile(cfg.host), jobs);
  }

  /** One retention pass, which keeps the stage if this is the directory that has it. */
  method RetentionOn(dir: Folder, night: Night, reading: Reading, today: int, cfg: Config, stuck: set<string>,
                     ghost jobs: seq<Job>, ghost staged: bool, ghost last: bool)
    returns (ok: bool)
    requires ValidNight(night) && today <= night.otherDay
    requires staged ==> Stage(dir.files, night.dumpDay, HostnameForFile(cfg.host), jobs, last) && 0 <= Year(night.dumpDay) <= 9999
    requires staged ==> night.otherDay - night.dumpDay <= cfg.retain.daily
    modifies dir
    ensures ok <==> !night.lister(reading, old(dir.files)).Unreadable?
    ensures dir.files == Retained(cfg, night, reading, old(dir.files), today, stuck)
    ensures staged ==> Stage(dir.files, night.dumpDay, HostnameForFile(cfg.host), jobs, last)
  {
    hide Stage, HostnameForFile, Pruned, Year, ListingOf;
    ghost var d := dir.files;
    ok := Apply(dir, night.lister(reading, dir.files), night.blind, today, cfg.retain, stuck);
    if staged {
      StageAfterRetention(d, night.dumpDay, HostnameForFile(cfg.host), jobs, last, today, cfg.retain, stuck);
    }
  }

  /** What each outcome of `Sync` means for the night. */
  lemma SyncOutcome(cfg: Config, night: Night, local: Disk, before: Disk, after: Disk, s: Result)
    requires ValidNight(night) && SyncSays(cfg, night, local, before, after, s)
    ensures s.Skipped? ==> after == before
    ensures s.Mirrored? ==> Mirrors(cfg, night, local, before, after)
    ensures !s.Skipped? && !s.Mirrored? ==> BrokeOff(cfg, night, local, before, after)
    ensures cfg.remote ==> (!s.Mirrored? <==> MirrorBreaks(cfg, night, local, before))
  {
    hide IsBackupName, Synced, NeedUpload, ListingOf, Mirrors, BrokeOff;
    var names := Backups(Names(night.lister(ForSync, local)), night.blind);
    if s.UploadError? || s.Mirrored? {
      UploadsFailIff(cfg.m, night.net, local - night.blind, before, names);
      SyncedFails(cfg, night, local, before, names);
      if s.Mirrored? { SyncedMirrors(cfg, night, local, before, names); } else { SyncedBrokeOff(cfg, night, local, before, names); }
    } else {
      NothingBroke(cfg, night, local, before);
    }
  }

  lemma SyncedFails(cfg: Config, night: Night, local: Disk, before: Disk, names: seq<string>)
    requires ValidNetwork(night.net) && forall n :: n in names ==> n in local - night.blind
    ensures Synced(cfg.m, night.net, local - night.blind, before, names).failed ==
            Uploads(cfg.m, night.net, local - night.blind, before, names).failed
  {
    hide Uploads;
  }

  /** The contract of `Sync`, on the listings of the night. */
  ghost predicate SyncSays(cfg: Config, night: Night, local: Disk, before: Disk, after: Disk, s: Result)
    requires ValidNight(night)
  {
    var localListing, names := night.lister(ForSync, local), Backups(Names(night.lister(ForSync, local)), night.blind);
    && (s.Skipped? <==> !cfg.remote)
    && (s.LocalError? <==> cfg.remote && localListing.Unreadable?)
    && (s.ConnectError? <==> cfg.remote && !localListing.Unreadable? && !night.connected)
    && (s.RemoteError? <==> cfg.remote && !localListing.Unreadable? && night.connected && night.lister(ForRemote, before).Unreadable?)
    && (!s.UploadError? && !s.Mirrored? ==> after == before)
    && (s.UploadError? || s.Mirrored? ==>
         && (forall n :: n in names <==> n in local - night.blind && IsBackupName(n))
         && after == Synced(cfg.m, night.net, local - night.blind, before, names).remote
         && s.UploadError? == Synced(cfg.m, night.net, local - night.blind, before, names).failed)
  }

  // ----- The sequence -------------------------------------------------------

  /** `Backup`. Retention runs on the backup directory and then on the local directory `other`, if any, that
      the configured remote path names; its errors are only warnings. */
  method Backup(cfg: Config, night: Night, jobs: seq<Job>, dir: Folder, other: Folder?, remote: Folder) returns (r: Outcome)
    requires ValidNight(night) && remote != dir && remote != other
    modifies dir, other, remote
    ensures r.Aborted? <==> !night.start.Ready?
    ensures r.NoDatabases? <==> night.start.Ready? && jobs == []
    ensures r.Aborted? || r.NoDatabases? ==> dir.files == old(dir.files)
    ensures r.DumpFailed? ==>
      dir.files == if night.mkdirFails then old(dir.files) else
        Exec(old(dir.files), SessionOps(old(dir.files), night.lister(ForRecovery, old(dir.files)), night.passed,
                                        NamePrefix(night.dumpDay, HostnameForFile(cfg.host)), jobs))
    ensures !r.SyncFailed? && !r.Finished? && other != null && other != dir ==> other.files == old(other.files)
    ensures (r.SyncFailed? || r.Finished?) && other != dir ==>
      var dumped := Exec(old(dir.files), SessionOps(old(dir.files), night.lister(ForRecovery, old(dir.files)), night.passed,
                                                    NamePrefix(night.dumpDay, HostnameForFile(cfg.host)), jobs));
      if night.lister(ForRetention, dumped).Unreadable?
      then dir.files == dumped && (other != null ==> other.files == old(other.files))
      else && dir.files == Pruned(dumped, night.localDay, cfg.retain, night.stuck)
           && (other != null && night.lister(ForOther, old(other.files)).Unreadable? ==> other.files == old(other.files))
           && (other != null && !night.lister(ForOther, old(other.files)).Unreadable? ==>
                 other.files == Pruned(old(other.files), night.otherDay, cfg.retain, night.otherStuck))
    ensures r.DumpFailed? <==> night.start.Ready? && jobs != [] && !DumpDone(cfg, night, old(dir.files), jobs)
    ensures r.SyncFailed? <==> night.start.Ready? && jobs != [] && DumpDone(cfg, night, old(dir.files), jobs) &&
                               cfg.remote && MirrorBreaks(cfg, night, dir.files, old(remote.files))
    ensures !(r.SyncFailed? || r.Finished?) || !cfg.remote ==> remote.files == old(remote.files)
    ensures r.SyncFailed? ==> BrokeOff(cfg, night, dir.files, old(remote.files), remote.files)
    ensures r.Finished? && cfg.remote ==> Mirrors(cfg, night, dir.files, old(remote.files), remote.files)
    ensures (r.SyncFailed? || r.Finished?) && other == dir ==>
      var dumped := Exec(old(dir.files), SessionOps(old(dir.files), night.lister(ForRecovery, old(dir.files)), night.passed,
                                                    NamePrefix(night.dumpDay, HostnameForFile(cfg.host)), jobs));
      var first := Pruned(dumped, night.localDay, cfg.retain, night.stuck);
      dir.files == if night.lister(ForRetention, dumped).Unreadable? then dumped
                   else if night.lister(ForOther, first).Unreadable? then first
                   else Pruned(first, night.otherDay, cfg.retain, night.otherStuck)
    ensures r.Finished? && Calm(cfg, night) ==> forall j :: j in jobs ==>
      Delivered(cfg, night, jobs, dir.files, old(remote.files), remote.files, NoFuture(old(dir.files), night.dumpDay), j)
  {
    hide Stage, Delivered, HasZip, NoFuture, NamePrefix, HostnameForFile, Exec, SessionOps, RecoverOps, Leftovers, BackupName,
         DoneCount, Pruned, Synced, Backups, Year, ListingOf, IsBackupName, UpToDate, ZipPaths, Mirrors, BrokeOff, MirrorBreaks;
    if night.start != Ready { return Aborted; }
    if |jobs| == 0 { return NoDatabases; }
    ghost var calm, last := Calm(cfg, night), NoFuture(dir.files, night.dumpDay);
    ghost var host := HostnameForFile(cfg.host);
    var prefix := NamePrefix(night.dumpDay, HostnameForFile(cfg.host));
    ghost var found := dir.files;
    ExecNone(found);
    var made := Run(dir, night.mkdirFails, night.lister(ForRecovery, dir.files), night.passed, prefix, jobs);
    if !made.Created? { return DumpFailed; }
    if calm { DumpStage(cfg, night, found, jobs); }
    var ok := RetentionOn(dir, night, ForRetention, night.localDay, cfg, night.stuck, jobs, calm, last);
    if ok && other != null {
      ok := RetentionOn(other, night, ForOther, night.otherDay, cfg, night.otherStuck, jobs, calm && other == dir, last);
    }
    ghost var before := remote.files;
    var s := Synchronise(cfg.remote, cfg.m, dir.files, night.lister(ForSync, dir.files), night.blind, night.connected,
                         remote, night.lister(ForRemote, remote.files), night.net);
    SyncOutcome(cfg, night, dir.files, before, remote.files, s);
    if !s.Skipped? && !s.Mirrored? { return SyncFailed; }
    r := Finished;
    if calm {
      forall j | j in jobs
        ensures Delivered(cfg, night, jobs, dir.files, before, remote.files, last, j)
      {
        if s.Mirrored? && Visible(cfg, night, j) {
          StageDelivered(cfg, night, jobs, last, dir.files, before, Backups(Names(night.lister(ForSync, dir.files)), night.blind), j);
        } else {
          LocalDelivered(cfg, night, jobs, dir.files, before, remote.files, last, j);
        }
      }
    }
  }
}
