/** The code of internal/backup/backup.go, proved to issue exactly the file operations
    that Overwrite describes. */
module BackupRun {
  import opened Text
  import opened Files
  import opened Overwrite
  import opened CrashSafety

  /** `recoverSavFiles`: an unreadable directory is left as it is, and so are the names in `passed`. */
  method RecoverSavFiles(dir: Folder, listing: Listing, passed: set<string>)
    requires ListingOf(listing, dir.files)
    modifies dir
    ensures var ops := RecoveryOps(old(dir.files), listing, passed);
      dir.issued == old(dir.issued) + ops && dir.files == Exec(old(dir.files), ops)
  {
    hide Exec, RecoverOps, RecoverOne;
    RecoverNone(dir.files);
    if !listing.Entries? { return; }
    var names := listing.names;
    ghost var ops: seq<Op> := [];
    ghost var d := dir.files;
    ExecNone(d);
    for i := 0 to |names|
      invariant ops == RecoverOps(d, Leftovers(names[..i], passed))
      invariant dir.issued == old(dir.issued) + ops && dir.files == Exec(d, ops)
    {
      assert names[..i + 1][..i] == names[..i] && names[..i + 1][i] == names[i];
      if !HasSuffix(names[i], ".sav") { continue; }
      var base := names[i][..|names[i]| - 4];
      if base in passed { continue; }
      RecoverSnoc(d, Leftovers(names[..i], passed), base);
      ExecConcat(d, ops, RecoverOne(dir.files, base));
      ops := ops + RecoverOne(dir.files, base);
      RecoverEntry(dir, base);
    }
    assert names[..|names|] == names;
  }

  lemma RecoverNone(d: Disk)
    ensures RecoverOps(d, Leftovers([], {})) == [] && Exec(d, []) == d
  {}

  lemma {:induction false} RecoverSnoc(d: Disk, bases: seq<string>, b: string)
    ensures RecoverOps(d, bases + [b]) == RecoverOps(d, bases) + RecoverOne(Exec(d, RecoverOps(d, bases)), b)
    decreases |bases|
  {
    hide Exec, RecoverOne;
    if bases == [] {
      ExecNone(d);
      assert [b][1..] == [] && RecoverOps(Exec(d, RecoverOne(d, b)), []) == [];
      assert [] + [b] == [b];
    } else {
      var e := Exec(d, RecoverOne(d, bases[0]));
      assert (bases + [b])[0] == bases[0] && (bases + [b])[1..] == bases[1..] + [b];
      RecoverSnoc(e, bases[1..], b);
      ExecConcat(d, RecoverOne(d, bases[0]), RecoverOps(e, bases[1..]));
    }
  }

  /** One `.sav` entry. */
  method RecoverEntry(dir: Folder, base: string)
    modifies dir
    ensures var ops := RecoverOne(old(dir.files), base);
      dir.issued == old(dir.issued) + ops && dir.files == Exec(old(dir.files), ops)
  {
    NamesDiffer();
    hide Exec, Zip, Sav;
    ghost var d := dir.files;
    ExecNone(d);
    var savPath, zipPath := Sav(base), Zip(base);
    ExecOne(d, Rename(savPath, zipPath));
    ExecTwo(d, Remove(zipPath), Rename(savPath, zipPath));
    ExecOne(d, Remove(savPath));
    if savPath !in dir.files { return; }
    if zipPath !in dir.files {
      dir.Issue(Rename(savPath, zipPath));
      return;
    }
    if |dir.files[savPath].data| >= |dir.files[zipPath].data| {
      dir.Issue(Remove(zipPath));
      dir.Issue(Rename(savPath, zipPath));
    } else {
      dir.Issue(Remove(savPath));
    }
  }

  /** `safeWriteZIPStreaming` up to the open entry. */
  method Begin(dir: Folder, base: string, j: Job) returns (ok: bool)
    modifies dir
    ensures ok <==> !(Found(old(dir.files), base, j) && j.renameFails) && j.failure != AtCreate
    ensures !ok ==> dir.issued == old(dir.issued) + JobOps(old(dir.files), base, j)
    ensures !ok ==> dir.files == Exec(old(dir.files), JobOps(old(dir.files), base, j))
    ensures ok ==> var ops := BeginOps(old(dir.files), base, j) + [Write(Zip(base), EMPTY)];
              dir.issued == old(dir.issued) + ops && dir.files == Exec(old(dir.files), ops)
  {
    NamesDiffer();
    hide Exec, Zip, Sav;
    ghost var d := dir.files;
    ExecNone(d);
    var zipPath, savPath := Zip(base), Sav(base);
    if zipPath in dir.files && !j.unseen {
      if j.renameFails { return false; }
      ExecOne(d, Rename(zipPath, savPath));
      dir.Issue(Rename(zipPath, savPath));
    }
    ghost var ops := BeginOps(d, base, j);
    assert dir.files == Exec(d, ops) && dir.issued == old(dir.issued) + ops;
    if j.failure == AtCreate {
      if savPath in dir.files {
        ExecSnoc(d, ops, Rename(savPath, zipPath));
        dir.Issue(Rename(savPath, zipPath));
      } else {
        assert ops + [] == ops;
      }
      return false;
    }
    ExecSnoc(d, ops, Write(zipPath, EMPTY));
    dir.Issue(Write(zipPath, EMPTY));
    return true;
  }

  /** The dump and the user block go through the entry writer. */
  method Stream(dir: Folder, base: string, writes: seq<File>)
    modifies dir
    ensures dir.issued == old(dir.issued) + WriteOps(base, writes)
    ensures dir.files == Exec(old(dir.files), WriteOps(base, writes))
  {
    hide Exec;
    ghost var d := dir.files;
    ExecNone(d);
    for i := 0 to |writes|
      invariant dir.issued == old(dir.issued) + WriteOps(base, writes[..i])
      invariant dir.files == Exec(d, WriteOps(base, writes[..i]))
    {
      assert WriteOps(base, writes[..i + 1]) == WriteOps(base, writes[..i]) + [Write(Zip(base), writes[i])];
      ExecSnoc(d, WriteOps(base, writes[..i]), Write(Zip(base), writes[i]));
      dir.Issue(Write(Zip(base), writes[i]));
    }
    assert writes[..|writes|] == writes;
  }

  method Finish(dir: Folder, base: string, closed: File)
    modifies dir
    ensures var ops := [Write(Zip(base), closed), Remove(Sav(base))];
      dir.issued == old(dir.issued) + ops && dir.files == Exec(old(dir.files), ops)
  {
    hide Exec;
    ExecTwo(dir.files, Write(Zip(base), closed), Remove(Sav(base)));
    dir.Issue(Write(Zip(base), closed));
    dir.Issue(Remove(Sav(base)));
  }

  method Cancel(dir: Folder, base: string)
    modifies dir
    ensures var ops := [Remove(Zip(base))] + RestoreOps(old(dir.files), base);
      dir.issued == old(dir.issued) + ops && dir.files == Exec(old(dir.files), ops)
  {
    NamesDiffer();
    hide Exec, Zip, Sav;
    ExecOne(dir.files, Remove(Zip(base)));
    ExecTwo(dir.files, Remove(Zip(base)), Rename(Sav(base), Zip(base)));
    dir.Issue(Remove(Zip(base)));
    if Sav(base) in dir.files {
      dir.Issue(Rename(Sav(base), Zip(base)));
      assert [Remove(Zip(base))] + RestoreOps(old(dir.files), base) == [Remove(Zip(base)), Rename(Sav(base), Zip(base))];
    } else {
      assert [Remove(Zip(base))] + RestoreOps(old(dir.files), base) == [Remove(Zip(base))];
    }
  }

  /** One round of the loop in `Run`. */
  method BackupOne(dir: Folder, base: string, j: Job) returns (ok: bool)
    modifies dir
    ensures var ops := JobOps(old(dir.files), base, j);
      dir.issued == old(dir.issued) + ops && dir.files == Exec(old(dir.files), ops)
    ensures ok <==> Succeeds(old(dir.files), base, j)
  {
    NamesDiffer();
    hide Exec, Zip, Sav, WriteOps;
    ghost var d := dir.files;
    var begun := Begin(dir, base, j);
    if !begun { return false; }
    ghost var front := BeginOps(d, base, j) + [Write(Zip(base), EMPTY)];
    SavUnchanged(d, base, j);
    Stream(dir, base, j.writes);
    ExecConcat(d, front, WriteOps(base, j.writes));
    front := front + WriteOps(base, j.writes);
    if j.failure in {AtEntry, AtDump, AtUserBlock, AtClose} {
      ExecConcat(d, front, [Remove(Zip(base))] + RestoreOps(dir.files, base));
      Cancel(dir, base);
      return false;
    }
    ExecConcat(d, front, [Write(Zip(base), j.closed), Remove(Sav(base))]);
    Finish(dir, base, j.closed);
    return true;
  }

  lemma SavUnchanged(d: Disk, base: string, j: Job)
    ensures var begun := Exec(d, BeginOps(d, base, j));
      var e := Exec(d, BeginOps(d, base, j) + [Write(Zip(base), EMPTY)]);
      Sav(base) in Exec(e, WriteOps(base, j.writes)) <==> Sav(base) in begun
  {
    NamesDiffer();
    hide Exec, Zip, Sav, WriteOps;
    var begun := Exec(d, BeginOps(d, base, j));
    ExecSnoc(d, BeginOps(d, base, j), Write(Zip(base), EMPTY));
    WriteMany(Do(begun, Write(Zip(base), EMPTY)), base, j.writes);
  }

  datatype RunResult = Created(paths: seq<string>) | MkdirError | DbError(index: nat)

  function ZipPaths(prefix: string, jobs: seq<Job>): seq<string> {
    seq(|jobs|, i requires 0 <= i < |jobs| => Zip(prefix + jobs[i].db))
  }

  /** The loop over the databases: `failed` is the first that fails, if any. */
  method DumpAll(dir: Folder, prefix: string, jobs: seq<Job>) returns (created: seq<string>, failed: Option<nat>)
    modifies dir
    ensures var ops := RunOps(old(dir.files), prefix, jobs);
      dir.issued == old(dir.issued) + ops && dir.files == Exec(old(dir.files), ops)
    ensures var k := DoneCount(old(dir.files), prefix, jobs);
      && failed == (if k < |jobs| then Some(k) else None)
      && created == ZipPaths(prefix, jobs[..k])
  {
    hide Exec, Zip, JobOps;
    ghost var d := dir.files;
    ghost var ops: seq<Op> := [];
    ExecNone(d);
    created := [];
    for i := 0 to |jobs|
      invariant dir.files == Exec(d, ops) && dir.issued == old(dir.issued) + ops
      invariant RunOps(d, prefix, jobs) == ops + RunOps(dir.files, prefix, jobs[i..])
      invariant DoneCount(d, prefix, jobs) == i + DoneCount(dir.files, prefix, jobs[i..])
      invariant created == ZipPaths(prefix, jobs[..i])
    {
      assert jobs[i..][0] == jobs[i] && jobs[i..][1..] == jobs[i + 1..];
      assert ZipPaths(prefix, jobs[..i + 1]) == ZipPaths(prefix, jobs[..i]) + [Zip(prefix + jobs[i].db)];
      ghost var step := JobOps(dir.files, prefix + jobs[i].db, jobs[i]);
      ExecConcat(d, ops, step);
      var ok := BackupOne(dir, prefix + jobs[i].db, jobs[i]);
      ops := ops + step;
      if !ok {
        assert step + [] == step;
        return created, Some(i);
      }
      created := created + [Zip(prefix + jobs[i].db)];
    }
    assert ops + [] == ops && jobs[|jobs|..] == [];
    failed := None;
  }

  /** `backup.Run`: the operations of a session in order, the first failing database
      ends it, and on success every database has its path in the result. */
  method Run(dir: Folder, mkdirFails: bool, listing: Listing, passed: set<string>, prefix: string, jobs: seq<Job>) returns (r: RunResult)
    requires ListingOf(listing, dir.files)
    modifies dir
    ensures r.MkdirError? <==> mkdirFails
    ensures var ops := if mkdirFails then [] else SessionOps(old(dir.files), listing, passed, prefix, jobs);
      dir.issued == old(dir.issued) + ops && dir.files == Exec(old(dir.files), ops)
    ensures !mkdirFails ==> var d := Exec(old(dir.files), RecoveryOps(old(dir.files), listing, passed));
      var k := DoneCount(d, prefix, jobs);
      r == if k < |jobs| then DbError(k) else Created(ZipPaths(prefix, jobs))
  {
    hide Exec, RunOps, DoneCount, RecoveryOps, ZipPaths;
    ExecNone(dir.files);
    if mkdirFails { return MkdirError; }
    RecoverSavFiles(dir, listing, passed);
    ghost var recovery := RecoveryOps(old(dir.files), listing, passed);
    ExecConcat(old(dir.files), recovery, RunOps(dir.files, prefix, jobs));
    var created, failed := DumpAll(dir, prefix, jobs);
    if failed.Some? { return DbError(failed.value); }
    assert jobs[..|jobs|] == jobs;
    return Created(created);
  }
}
