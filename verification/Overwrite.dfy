/** internal/backup/backup.go: how an existing backup is overwritten. The old zip is
    moved to `.sav`, the new one written, and `.sav` removed only after the new zip is closed; every
    start first settles what a crash left behind. The specification is the list of file operations
    a run issues, so a crash is any prefix of that list. */
module Overwrite {
  import opened Text
  import opened Files

  function Zip(base: string): string { base + ".zip" }
  function Sav(base: string): string { base + ".sav" }

  /** Zips and saved zips of different base names are different files. */
  lemma NamesDiffer()
    ensures forall a, b {:trigger Zip(a), Zip(b)} :: Zip(a) == Zip(b) ==> a == b
    ensures forall a, b {:trigger Sav(a), Sav(b)} :: Sav(a) == Sav(b) ==> a == b
    ensures forall a, b {:trigger Zip(a), Sav(b)} :: Zip(a) != Sav(b)
  {
    forall a, b
      ensures Zip(a) == Zip(b) ==> a == b
      ensures Sav(a) == Sav(b) ==> a == b
      ensures Zip(a) != Sav(b)
    {
      assert Zip(a)[..|a|] == a && Zip(b)[..|b|] == b && Sav(a)[..|a|] == a && Sav(b)[..|b|] == b;
      assert Zip(a)[|Zip(a)| - 3] == 'z' && Sav(b)[|Sav(b)| - 3] == 's';
    }
  }

  /** Where a zip and its saved copy are, and that neither the listing nor the mirror takes a saved copy for a backup. */
  lemma SavIsNoBackup(base: string)
    ensures Zip(base) == base + ".zip" && Sav(base) == base + ".sav"
    ensures NameDate(Sav(base)).None? && !IsBackupName(Sav(base))
  {
    var s := Sav(base);
    assert s[|s| - 4..] == ".sav" && ".sav"[1] != ".zip"[1];
    assert !HasSuffix(s, ".zip");
  }

  // ----- One database -------------------------------------------------------

  /** Where writing one zip can fail. */
  datatype Failure = Nowhere | AtCreate | AtEntry | AtDump | AtUserBlock | AtClose

  /** One database to dump: whether the zip in its place cannot be examined, the contents the new zip goes through
      while it is written, its content once closed, and what goes wrong. */
  datatype Job = Job(db: string, unseen: bool, renameFails: bool, failure: Failure, writes: seq<File>, closed: File)

  const EMPTY := File([], false, 0)

  /** The old zip is seen, and so to be moved out of the way. */
  predicate Found(d: Disk, base: string, j: Job) { Zip(base) in d && !j.unseen }

  function BeginOps(d: Disk, base: string, j: Job): seq<Op> {
    if Found(d, base, j) then [Rename(Zip(base), Sav(base))] else []
  }

  function WriteOps(base: string, writes: seq<File>): seq<Op> {
    seq(|writes|, i requires 0 <= i < |writes| => Write(Zip(base), writes[i]))
  }

  /** Restoring: `d` is the directory before the new zip was created. */
  function RestoreOps(d: Disk, base: string): seq<Op> {
    if Sav(base) in d then [Rename(Sav(base), Zip(base))] else []
  }

  predicate Succeeds(d: Disk, base: string, j: Job) {
    !(Found(d, base, j) && j.renameFails) && j.failure == Nowhere
  }

  function JobOps(d: Disk, base: string, j: Job): seq<Op> {
    var begin := BeginOps(d, base, j);
    var renamed := Exec(d, begin);
    if Found(d, base, j) && j.renameFails then []
    else if j.failure == AtCreate then begin + RestoreOps(renamed, base)
    else
      begin + [Write(Zip(base), EMPTY)] + WriteOps(base, j.writes) +
      if j.failure == Nowhere then [Write(Zip(base), j.closed), Remove(Sav(base))]
      else [Remove(Zip(base))] + RestoreOps(renamed, base)
  }

  lemma {:induction false} WriteMany(d: Disk, base: string, writes: seq<File>)
    requires Zip(base) in d
    ensures Exec(d, WriteOps(base, writes)) == d[Zip(base) := if writes == [] then d[Zip(base)] else writes[|writes| - 1]]
    decreases |writes|
  {
    if writes != [] {
      assert WriteOps(base, writes)[1..] == WriteOps(base, writes[1..]);
      WriteMany(d[Zip(base) := writes[0]], base, writes[1..]);
    }
  }

  /** The file that is under `.sav`, if any, is the zip again; without one there is no zip if it was written over. */
  function PutBack(d: Disk, base: string, over: bool): Disk {
    if Sav(base) in d then (d - {Sav(base)})[Zip(base) := d[Sav(base)]]
    else if over then d - {Zip(base)}
    else d
  }

  /** The directory a job leaves. */
  function JobLeaves(d: Disk, base: string, j: Job): Disk {
    if Succeeds(d, base, j) then d[Zip(base) := j.closed] - {Sav(base)}
    else if !Found(d, base, j) then PutBack(d, base, j.failure != AtCreate)
    else if j.renameFails then d
    else d - {Sav(base)}
  }

  lemma ExecNone(d: Disk)
    ensures Exec(d, []) == d
  {}

  function Moved(d: Disk, base: string, j: Job): Disk {
    if Found(d, base, j) then (d - {Zip(base)})[Sav(base) := d[Zip(base)]] else d
  }

  lemma Renamed(d: Disk, base: string, j: Job)
    ensures Exec(d, BeginOps(d, base, j)) == Moved(d, base, j)
  {
    hide Exec;
    ExecNone(d);
    ExecOne(d, Rename(Zip(base), Sav(base)));
  }

  /** Restoring, after the new zip was removed or before it was created. */
  lemma Restored(d: Disk, base: string, j: Job)
    requires !(Found(d, base, j) && j.renameFails) && j.failure != Nowhere
    ensures var renamed := Moved(d, base, j); var e := if j.failure == AtCreate then renamed else renamed - {Zip(base)};
      Exec(e, RestoreOps(renamed, base)) == JobLeaves(d, base, j)
  {
    NamesDiffer();
    hide Zip, Sav, Exec;
    var renamed := Moved(d, base, j);
    var e := if j.failure == AtCreate then renamed else renamed - {Zip(base)};
    ExecNone(e);
    ExecOne(e, Rename(Sav(base), Zip(base)));
  }

  /** What the operations of one database come to, from every directory. */
  lemma JobEffect(d: Disk, base: string, j: Job)
    ensures Exec(d, JobOps(d, base, j)) == JobLeaves(d, base, j)
  {
    NamesDiffer();
    hide Zip, Sav, WriteOps, Exec, JobLeaves, Moved, Found;
    var begin, renamed := BeginOps(d, base, j), Moved(d, base, j);
    Renamed(d, base, j);
    if Found(d, base, j) && j.renameFails {
      hide *;
      NothingDone(d, base, j);
    } else if j.failure == AtCreate {
      ExecConcat(d, begin, RestoreOps(renamed, base));
      Restored(d, base, j);
    } else {
      var front := begin + [Write(Zip(base), EMPTY)];
      ExecConcat(d, begin, [Write(Zip(base), EMPTY)]);
      ExecOne(renamed, Write(Zip(base), EMPTY));
      ExecConcat(d, front, WriteOps(base, j.writes));
      WriteMany(Exec(d, front), base, j.writes);
      var written := Exec(d, front + WriteOps(base, j.writes));
      if j.failure == Nowhere {
        var rest := [Write(Zip(base), j.closed), Remove(Sav(base))];
        ExecConcat(d, front + WriteOps(base, j.writes), rest);
        ExecTwo(written, rest[0], rest[1]);
        Replaced(d, base, j, written);
      } else {
        var rest := RestoreOps(renamed, base);
        ExecConcat(d, front + WriteOps(base, j.writes), [Remove(Zip(base))] + rest);
        ExecConcat(written, [Remove(Zip(base))], rest);
        ExecOne(written, Remove(Zip(base)));
        assert written - {Zip(base)} == renamed - {Zip(base)};
        Restored(d, base, j);
      }
    }
  }

  lemma NothingDone(d: Disk, base: string, j: Job)
    requires Found(d, base, j) && j.renameFails
    ensures Exec(d, JobOps(d, base, j)) == JobLeaves(d, base, j)
  {}

  lemma Replaced(d: Disk, base: string, j: Job, written: Disk)
    requires Succeeds(d, base, j) && written - {Zip(base)} == Moved(d, base, j) - {Zip(base)}
    ensures written[Zip(base) := j.closed] - {Sav(base)} == JobLeaves(d, base, j)
  {
    NamesDiffer();
    hide Zip, Sav;
    var e := Moved(d, base, j);
    var made, wanted := written[Zip(base) := j.closed] - {Sav(base)}, d[Zip(base) := j.closed] - {Sav(base)};
    forall n
      ensures Lookup(made, n) == Lookup(wanted, n)
    {
      assert Lookup(written - {Zip(base)}, n) == Lookup(e - {Zip(base)}, n);
    }
    SameFiles(made, wanted);
  }

  lemma SameFiles(d: Disk, e: Disk)
    requires forall n :: Lookup(d, n) == Lookup(e, n)
    ensures d == e
  {
    assert forall n :: n in d <==> Lookup(d, n).Some?;
    assert forall n :: n in e <==> Lookup(e, n).Some?;
  }

  /** The old zip is written over without having been saved, and the writing fails. */
  predicate Loses(d: Disk, base: string, j: Job) {
    Zip(base) in d && j.unseen && j.failure != Nowhere && j.failure != AtCreate
  }

  /** One database is backed up completely or not at all: with nothing left over in `.sav`, the operations end in
      the new zip replacing the old one, or in the directory as it was, exactly if no zip is written over that
      could not be examined. */
  lemma JobAtomic(d: Disk, base: string, j: Job)
    requires Sav(base) !in d
    ensures Exec(d, JobOps(d, base, j)) ==
      if Succeeds(d, base, j) then d[Zip(base) := j.closed] else if Loses(d, base, j) then d - {Zip(base)} else d
    ensures Exec(d, JobOps(d, base, j)) == (if Succeeds(d, base, j) then d[Zip(base) := j.closed] else d) <==> !Loses(d, base, j)
  {
    NamesDiffer();
    hide Zip, Sav, Exec, JobOps;
    JobEffect(d, base, j);
  }

  // ----- All databases ------------------------------------------------------

  /** `Run` stops at the first database that fails. */
  function RunOps(d: Disk, prefix: string, jobs: seq<Job>): seq<Op>
    decreases |jobs|
  {
    if jobs == [] then [] else
    var ops := JobOps(d, prefix + jobs[0].db, jobs[0]);
    ops + if Succeeds(d, prefix + jobs[0].db, jobs[0]) then RunOps(Exec(d, ops), prefix, jobs[1..]) else []
  }

  /** How many databases are done before the first failure. */
  function DoneCount(d: Disk, prefix: string, jobs: seq<Job>): (k: nat)
    ensures k <= |jobs|
    decreases |jobs|
  {
    if jobs == [] || !Succeeds(d, prefix + jobs[0].db, jobs[0]) then 0
    else 1 + DoneCount(Exec(d, JobOps(d, prefix + jobs[0].db, jobs[0])), prefix, jobs[1..])
  }

  /** A job leaves the zips of other names where they are. */
  lemma OtherZips(d: Disk, base: string, j: Job, b: string)
    requires b != base
    ensures Zip(b) in JobLeaves(d, base, j) <==> Zip(b) in d
  {
    NamesDiffer();
    hide Zip, Sav;
  }

  /** All databases are done exactly if nothing goes wrong with any of them: no failure, and no old zip that is seen
      and cannot be moved. */
  lemma {:induction false} AllDoneIff(d: Disk, prefix: string, jobs: seq<Job>)
    requires forall i, j :: 0 <= i < j < |jobs| ==> jobs[i].db != jobs[j].db
    ensures DoneCount(d, prefix, jobs) == |jobs| <==>
      forall j :: j in jobs ==> j.failure == Nowhere && !(prefix + j.db + ".zip" in d && !j.unseen && j.renameFails)
    decreases |jobs|
  {
    hide Exec, JobOps, JobLeaves;
    if jobs != [] {
      var base, rest := prefix + jobs[0].db, jobs[1..];
      assert forall j :: j in jobs <==> j == jobs[0] || j in rest;
      if Succeeds(d, base, jobs[0]) {
        var e := Exec(d, JobOps(d, base, jobs[0]));
        JobEffect(d, base, jobs[0]);
        forall j | j in rest
          ensures Zip(prefix + j.db) in e <==> Zip(prefix + j.db) in d
        {
          SamePrefix(prefix, jobs[0].db, j.db);
          OtherZips(d, base, jobs[0], prefix + j.db);
        }
        AllDoneIff(e, prefix, rest);
      }
    }
  }

  /** The directory with the new zips of `jobs` in it. */
  function WithZips(d: Disk, prefix: string, jobs: seq<Job>): Disk
    decreases |jobs|
  {
    if jobs == [] then d else WithZips(d[Zip(prefix + jobs[0].db) := jobs[0].closed], prefix, jobs[1..])
  }

  ghost predicate NoSavs(d: Disk) { forall b :: Sav(b) !in d }

  /** The names the old zips of `jobs` are saved under. */
  function Savs(prefix: string, jobs: seq<Job>): set<string> { set j | j in jobs :: Sav(prefix + j.db) }

  /** The directory when `k` databases are done. */
  function Reached(d: Disk, prefix: string, jobs: seq<Job>, k: nat): Disk
    requires k <= |jobs|
  {
    WithZips(d, prefix, jobs[..k]) - Savs(prefix, jobs[..k])
  }

  lemma {:induction false} WithZipsWithout(d: Disk, sav: string, prefix: string, jobs: seq<Job>)
    requires forall b :: Zip(b) != sav
    ensures WithZips(d - {sav}, prefix, jobs) == WithZips(d, prefix, jobs) - {sav}
    decreases |jobs|
  {
    hide Zip;
    if jobs != [] {
      var zip := Zip(prefix + jobs[0].db);
      assert (d - {sav})[zip := jobs[0].closed] == d[zip := jobs[0].closed] - {sav};
      WithZipsWithout(d[zip := jobs[0].closed], sav, prefix, jobs[1..]);
    }
  }

  lemma ReachedStep(d: Disk, e: Disk, prefix: string, jobs: seq<Job>, k: nat)
    requires jobs != [] && k < |jobs|
    requires var base := prefix + jobs[0].db; e == d[Zip(base) := jobs[0].closed] - {Sav(base)}
    ensures Reached(e, prefix, jobs[1..], k) == Reached(d, prefix, jobs, k + 1)
  {
    NamesDiffer();
    hide Zip, Sav;
    var base, done, rest := prefix + jobs[0].db, jobs[..k + 1], jobs[1..];
    WithZipsWithout(d[Zip(base) := jobs[0].closed], Sav(base), prefix, rest[..k]);
    assert done[1..] == rest[..k] && done[0] == jobs[0];
    assert forall j :: j in done <==> j == jobs[0] || j in rest[..k];
    assert Savs(prefix, done) == {Sav(base)} + Savs(prefix, rest[..k]);
    var f := WithZips(d, prefix, done);
    assert f - {Sav(base)} - Savs(prefix, rest[..k]) == f - Savs(prefix, done);
  }

  lemma NoneReached(d: Disk, prefix: string, jobs: seq<Job>)
    ensures Reached(d, prefix, jobs, 0) == d
  {
    assert jobs[..0] == [] && WithZips(d, prefix, []) == d && Savs(prefix, []) == {};
  }

  lemma JobSucceeds(d: Disk, base: string, j: Job)
    requires Succeeds(d, base, j)
    ensures JobLeaves(d, base, j) == d[Zip(base) := j.closed] - {Sav(base)}
  {}

  /** What a run comes to, from every directory: the new zips of the databases before the first failing one, without
      what was saved of the old ones, and what the failing one leaves. */
  lemma {:induction false} RunEffect(d: Disk, prefix: string, jobs: seq<Job>)
    ensures var k := DoneCount(d, prefix, jobs); var e := Reached(d, prefix, jobs, k);
      && (k < |jobs| ==> !Succeeds(e, prefix + jobs[k].db, jobs[k]))
      && Exec(d, RunOps(d, prefix, jobs)) == if k < |jobs| then JobLeaves(e, prefix + jobs[k].db, jobs[k]) else e
    decreases |jobs|
  {
    hide Zip, Sav, Exec, JobOps, JobLeaves, Reached, Succeeds;
    NoneReached(d, prefix, jobs);
    if jobs == [] {
      ExecNone(d);
    } else {
      var base := prefix + jobs[0].db;
      var ops := JobOps(d, base, jobs[0]);
      var e := Exec(d, ops);
      JobEffect(d, base, jobs[0]);
      if Succeeds(d, base, jobs[0]) {
        RunEffect(e, prefix, jobs[1..]);
        ExecConcat(d, ops, RunOps(e, prefix, jobs[1..]));
        JobSucceeds(d, base, jobs[0]);
        ReachedStep(d, e, prefix, jobs, DoneCount(e, prefix, jobs[1..]));
      } else {
        assert ops + [] == ops;
      }
    }
  }

  /** No old zip of `jobs` is left under `.sav`. */
  predicate NoneSaved(d: Disk, prefix: string, jobs: seq<Job>) { forall j :: j in jobs ==> Sav(prefix + j.db) !in d }

  /** The run ends with a database whose old zip is lost. */
  predicate RunLoses(d: Disk, prefix: string, jobs: seq<Job>) {
    var k := DoneCount(d, prefix, jobs);
    k < |jobs| && Loses(WithZips(d, prefix, jobs[..k]), prefix + jobs[k].db, jobs[k])
  }

  /** A run, complete or stopped by a failing database, with nothing left over from earlier for its databases,
      changes the directory only by the new zips of the databases before the failing one, exactly if the failing
      one does not lose its old zip; that is all it can lose. */
  lemma RunAtomic(d: Disk, prefix: string, jobs: seq<Job>)
    requires NoneSaved(d, prefix, jobs)
    ensures var k := DoneCount(d, prefix, jobs); var e := Exec(d, RunOps(d, prefix, jobs)); var f := WithZips(d, prefix, jobs[..k]);
      && e == (if RunLoses(d, prefix, jobs) then f - {Zip(prefix + jobs[k].db)} else f)
      && (e == f <==> !RunLoses(d, prefix, jobs))
      && forall b :: Sav(b) in e <==> Sav(b) in d
  {
    NamesDiffer();
    hide Zip, Sav, Exec, RunOps, DoneCount, WithZips;
    RunEffect(d, prefix, jobs);
    var k := DoneCount(d, prefix, jobs);
    var f := WithZips(d, prefix, jobs[..k]);
    forall b
      ensures Sav(b) in f <==> Sav(b) in d
    {
      WithZipsContents(d, prefix, jobs[..k], Sav(b));
    }
    assert forall j :: j in jobs[..k] ==> j in jobs;
    assert f - Savs(prefix, jobs[..k]) == f;
    if k < |jobs| { assert jobs[k] in jobs; }
  }

  /** Which file is where after a run: the last new zip of each name, every other file as before. */
  lemma {:induction false} WithZipsContents(d: Disk, prefix: string, jobs: seq<Job>, n: string)
    ensures (forall j :: j in jobs ==> n != Zip(prefix + j.db)) ==> Lookup(WithZips(d, prefix, jobs), n) == Lookup(d, n)
    ensures (exists j :: j in jobs && n == Zip(prefix + j.db)) ==>
              exists j :: j in jobs && n == Zip(prefix + j.db) && Lookup(WithZips(d, prefix, jobs), n) == Some(j.closed)
    decreases |jobs|
  {
    if jobs != [] {
      WithZipsContents(d[Zip(prefix + jobs[0].db) := jobs[0].closed], prefix, jobs[1..], n);
      assert forall j :: j in jobs <==> j == jobs[0] || j in jobs[1..];
    }
  }

  /** The same, database by database, for distinct databases: those before the failing one have their new
      zip, and every other file, the failing database's included unless it is lost, is as it was. */
  lemma AtomicPerDatabase(d: Disk, prefix: string, jobs: seq<Job>)
    requires NoneSaved(d, prefix, jobs) && forall i, j :: 0 <= i < j < |jobs| ==> jobs[i].db != jobs[j].db
    ensures var k := DoneCount(d, prefix, jobs); var e := Exec(d, RunOps(d, prefix, jobs));
      && (forall i :: 0 <= i < k ==> Lookup(e, Zip(prefix + jobs[i].db)) == Some(jobs[i].closed))
      && (forall n :: (forall i :: 0 <= i < k ==> n != Zip(prefix + jobs[i].db)) ==>
            Lookup(e, n) == if RunLoses(d, prefix, jobs) && n == Zip(prefix + jobs[k].db) then None else Lookup(d, n))
  {
    hide Zip, Sav, Exec, RunOps, WithZips, DoneCount, Loses;
    RunAtomic(d, prefix, jobs);
    var k := DoneCount(d, prefix, jobs);
    var done := jobs[..k];
    forall i | 0 <= i < k
      ensures Lookup(WithZips(d, prefix, done), Zip(prefix + done[i].db)) == Some(done[i].closed)
      ensures k < |jobs| ==> Zip(prefix + jobs[k].db) != Zip(prefix + jobs[i].db)
    {
      WithZipsDistinct(d, prefix, done, i);
      if k < |jobs| { ZipsDiffer(prefix, jobs[k].db, jobs[i].db); }
    }
    forall n | forall i :: 0 <= i < |done| ==> n != Zip(prefix + done[i].db)
      ensures Lookup(WithZips(d, prefix, done), n) == Lookup(d, n)
    {
      WithZipsContents(d, prefix, done, n);
    }
  }

  lemma ZipsDiffer(prefix: string, a: string, b: string)
    ensures Zip(prefix + a) == Zip(prefix + b) ==> a == b
  {
    NamesDiffer();
    SamePrefix(prefix, a, b);
  }

  lemma {:induction false} WithZipsDistinct(d: Disk, prefix: string, jobs: seq<Job>, i: nat)
    requires i < |jobs| && forall i, j :: 0 <= i < j < |jobs| ==> jobs[i].db != jobs[j].db
    ensures Lookup(WithZips(d, prefix, jobs), Zip(prefix + jobs[i].db)) == Some(jobs[i].closed)
    decreases |jobs|
  {
    NamesDiffer();
    hide Zip, Sav;
    var e := d[Zip(prefix + jobs[0].db) := jobs[0].closed];
    if i > 0 {
      WithZipsDistinct(e, prefix, jobs[1..], i - 1);
    } else {
      forall j | j in jobs[1..]
        ensures Zip(prefix + jobs[0].db) != Zip(prefix + j.db)
      {
        SamePrefix(prefix, jobs[0].db, j.db);
      }
      WithZipsContents(e, prefix, jobs[1..], Zip(prefix + jobs[0].db));
    }
  }

  lemma SamePrefix(prefix: string, a: string, b: string)
    ensures prefix + a == prefix + b ==> a == b
  {
    assert (prefix + a)[|prefix|..] == a && (prefix + b)[|prefix|..] == b;
  }

  // ----- Recovery -----------------------------------------------------------

  /** The base names of the `.sav` files among the directory entries, without those that have to be
      passed over because their files cannot be examined or the first operation on them fails. */
  function Leftovers(names: seq<string>, passed: set<string>): seq<string> {
    if names == [] then [] else
    var rest := Leftovers(names[..|names| - 1], passed);
    var n := names[|names| - 1];
    if HasSuffix(n, ".sav") && n[..|n| - 4] !in passed then rest + [n[..|n| - 4]] else rest
  }

  function RecoverOne(d: Disk, base: string): seq<Op> {
    var sav, zip := Sav(base), Zip(base);
    if sav !in d then []
    else if zip !in d then [Rename(sav, zip)]
    else if |d[sav].data| >= |d[zip].data| then [Remove(zip), Rename(sav, zip)]
    else [Remove(sav)]
  }

  function RecoverOps(d: Disk, bases: seq<string>): seq<Op>
    decreases |bases|
  {
    if bases == [] then [] else
    var ops := RecoverOne(d, bases[0]);
    ops + RecoverOps(Exec(d, ops), bases[1..])
  }

  /** The file recovery leaves as the zip of a base name: the larger of the two there
      were, the saved one if they are equally large. */
  function Settled(d: Disk, base: string): Option<File> {
    if Sav(base) !in d then Lookup(d, Zip(base))
    else if Zip(base) !in d || |d[Sav(base)].data| >= |d[Zip(base)].data| then Some(d[Sav(base)])
    else Some(d[Zip(base)])
  }

  /** `e` is `d` with the leftovers of `bases` settled and nothing else touched. */
  ghost predicate Recovers(d: Disk, e: Disk, bases: seq<string>) {
    && (forall b :: b in bases ==> Lookup(e, Zip(b)) == Settled(d, b) && Sav(b) !in e)
    && (forall n :: (forall b :: b in bases ==> n != Zip(b) && n != Sav(b)) ==> Lookup(e, n) == Lookup(d, n))
  }

  lemma RecoverOneSettles(d: Disk, base: string)
    ensures Recovers(d, Exec(d, RecoverOne(d, base)), [base])
  {
    NamesDiffer();
    hide Zip, Sav, Exec;
    var sav, zip := Sav(base), Zip(base);
    ExecNone(d);
    ExecOne(d, Rename(sav, zip));
    ExecTwo(d, Remove(zip), Rename(sav, zip));
    ExecOne(d, Remove(sav));
    assert forall b :: b in [base] <==> b == base;
  }

  /** Recovery settles every leftover, in whatever order the directory is listed. */
  lemma {:induction false} RecoverSettles(d: Disk, bases: seq<string>)
    requires forall i, j :: 0 <= i < j < |bases| ==> bases[i] != bases[j]
    ensures Recovers(d, Exec(d, RecoverOps(d, bases)), bases)
    decreases |bases|
  {
    NamesDiffer();
    hide Zip, Sav, Exec, RecoverOne;
    if bases == [] {
      ExecNone(d);
    } else {
      var base, rest := bases[0], bases[1..];
      var ops := RecoverOne(d, base);
      var e := Exec(d, ops);
      ExecConcat(d, ops, RecoverOps(e, rest));
      RecoverOneSettles(d, base);
      RecoverSettles(e, rest);
      RecoversCompose(d, e, Exec(e, RecoverOps(e, rest)), bases);
    }
  }

  /** Settling one leftover does not change what another settles to. */
  lemma SettledSame(d: Disk, e: Disk, base: string, b: string)
    requires Recovers(d, e, [base]) && b != base
    ensures Settled(e, b) == Settled(d, b)
  {
    NamesDiffer();
    hide Zip, Sav;
    assert forall x :: x in [base] <==> x == base;
    assert Lookup(e, Zip(b)) == Lookup(d, Zip(b)) && Lookup(e, Sav(b)) == Lookup(d, Sav(b));
  }

  lemma RecoversCompose(d: Disk, e: Disk, f: Disk, bases: seq<string>)
    requires forall i, j :: 0 <= i < j < |bases| ==> bases[i] != bases[j]
    requires bases != [] && Recovers(d, e, [bases[0]]) && Recovers(e, f, bases[1..])
    ensures Recovers(d, f, bases)
  {
    NamesDiffer();
    hide Zip, Sav, Settled;
    var base, rest := bases[0], bases[1..];
    assert forall b :: b in [base] <==> b == base;
    assert forall b :: b in bases <==> b == base || b in rest;
    assert base !in rest;
    forall b | b in rest
      ensures Settled(e, b) == Settled(d, b)
    {
      SettledSame(d, e, base, b);
    }
    assert Lookup(f, Zip(base)) == Lookup(e, Zip(base)) && Lookup(f, Sav(base)) == Lookup(e, Sav(base));
  }

  lemma IsSav(n: string, b: string)
    ensures n == Sav(b) <==> HasSuffix(n, ".sav") && n[..|n| - 4] == b
  {
    assert Sav(b)[..|b|] == b && Sav(b)[|b|..] == ".sav";
    if HasSuffix(n, ".sav") { assert n == n[..|n| - 4] + n[|n| - 4..]; }
  }

  lemma {:induction false} LeftoversOf(names: seq<string>, passed: set<string>)
    requires forall i, j :: 0 <= i < j < |names| ==> names[i] != names[j]
    ensures forall b :: b in Leftovers(names, passed) <==> Sav(b) in names && b !in passed
    ensures forall i, j :: 0 <= i < j < |Leftovers(names, passed)| ==> Leftovers(names, passed)[i] != Leftovers(names, passed)[j]
  {
    if names != [] {
      hide Sav;
      var init, n := names[..|names| - 1], names[|names| - 1];
      LeftoversOf(init, passed);
      assert n !in init;
      assert forall m :: m in names <==> m in init || m == n;
      forall b
        ensures n == Sav(b) <==> HasSuffix(n, ".sav") && n[..|n| - 4] == b
      {
        IsSav(n, b);
      }
      if HasSuffix(n, ".sav") {
        assert n == Sav(n[..|n| - 4]);
        assert n[..|n| - 4] !in Leftovers(init, passed);
      }
    }
  }

  /** After recovery the files of every name that was not passed over are settled, and those of the others
      are as they were. */
  lemma RecoverNamed(d: Disk, names: seq<string>, passed: set<string>, b: string)
    requires Enumerates(names, d.Keys)
    ensures var e := Exec(d, RecoverOps(d, Leftovers(names, passed)));
      if b in passed then Lookup(e, Zip(b)) == Lookup(d, Zip(b)) && Lookup(e, Sav(b)) == Lookup(d, Sav(b))
      else Lookup(e, Zip(b)) == Settled(d, b) && Sav(b) !in e
  {
    LeftoversOf(names, passed);
    NamesDiffer();
    hide Zip, Sav, Exec, RecoverOps, Leftovers;
    var bases := Leftovers(names, passed);
    var e := Exec(d, RecoverOps(d, bases));
    RecoverSettles(d, bases);
    if b in bases {
      hide Settled;
    } else {
      assert Lookup(e, Sav(b)) == Lookup(d, Sav(b)) && Lookup(e, Zip(b)) == Lookup(d, Zip(b));
    }
  }

  /** After recovery that passes nothing over no `.sav` is left, and every zip is settled. */
  lemma RecoverAll(d: Disk, names: seq<string>)
    requires Enumerates(names, d.Keys)
    ensures var e := Exec(d, RecoverOps(d, Leftovers(names, {})));
      NoSavs(e) && forall b :: Lookup(e, Zip(b)) == Settled(d, b)
  {
    hide Zip, Sav, Exec, RecoverOps, Leftovers, Settled;
    var e := Exec(d, RecoverOps(d, Leftovers(names, {})));
    forall b
      ensures Sav(b) !in e && Lookup(e, Zip(b)) == Settled(d, b)
    {
      RecoverNamed(d, names, {}, b);
    }
  }
}
