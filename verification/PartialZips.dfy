/** When a run dies while it writes a zip, the partial zip is in the place of the backup. The next start settles
    it only if there is a `.sav` beside it; the first zip of a name has none. */
module PartialZips {
  import opened Text
  import opened Files
  import opened Overwrite
  import opened CrashSafety

  ghost predicate AllWhole(d: Disk) { forall b :: Whole(d, b) }

  /** Nothing is left over and every zip is complete. */
  ghost predicate Clean(d: Disk) { NoSavs(d) && AllWhole(d) }

  predicate PartialWrite(op: Op) { op.Write? && !op.file.complete }

  /** After each of the operations every zip is complete, exactly if it did not write a partial one. */
  ghost predicate WholeBetween(d: Disk, ops: seq<Op>) {
    forall k :: 1 <= k <= |ops| ==> (AllWhole(Exec(d, ops[..k])) <==> !PartialWrite(ops[k - 1]))
  }

  lemma BetweenConcat(d: Disk, p: seq<Op>, q: seq<Op>)
    requires WholeBetween(d, p) && WholeBetween(Exec(d, p), q)
    ensures WholeBetween(d, p + q)
  {
    hide Exec, AllWhole;
    forall k | 1 <= k <= |p + q|
      ensures AllWhole(Exec(d, (p + q)[..k])) <==> !PartialWrite((p + q)[k - 1])
    {
      if k <= |p| {
        assert (p + q)[..k] == p[..k] && (p + q)[k - 1] == p[k - 1];
      } else {
        assert (p + q)[..k] == p + q[..k - |p|] && (p + q)[k - 1] == q[k - |p| - 1];
        ExecConcat(d, p, q[..k - |p|]);
      }
    }
  }

  lemma BetweenOne(d: Disk, op: Op)
    requires AllWhole(Do(d, op)) <==> !PartialWrite(op)
    ensures WholeBetween(d, [op])
  {
    hide Exec, AllWhole;
    ExecOne(d, op);
    assert [op][..1] == [op];
  }

  // ----- One database -------------------------------------------------------

  /** All but the zip of `base` is complete, its `.sav` included. */
  ghost predicate RestWhole(d: Disk, base: string) {
    && (forall b :: b != base ==> Whole(d, b))
    && (Sav(base) in d ==> d[Sav(base)].complete)
  }

  lemma AllFromRest(d: Disk, base: string)
    requires RestWhole(d, base)
    ensures AllWhole(d) <==> Whole(d, base)
  {}

  /** An operation of the job of `base`. */
  predicate Own(op: Op, base: string) {
    match op
    case Rename(from, to) => (from == Zip(base) && to == Sav(base)) || (from == Sav(base) && to == Zip(base))
    case Remove(n) => n == Zip(base) || n == Sav(base)
    case Write(n, _) => n == Zip(base)
  }

  lemma StepRest(d: Disk, op: Op, base: string)
    requires RestWhole(d, base) && Own(op, base) && (op == Rename(Zip(base), Sav(base)) ==> Whole(d, base))
    ensures RestWhole(Do(d, op), base)
  {
    NamesDiffer();
    hide Zip, Sav;
    forall b | b != base
      ensures Whole(Do(d, op), b)
    {
      assert Whole(d, b);
    }
  }

  /** After an operation that does not leave the zip as it was, it is known whether all are complete. */
  lemma StepBetween(d: Disk, op: Op, base: string)
    requires RestWhole(d, base) && Own(op, base) && (op == Rename(Zip(base), Sav(base)) || op == Remove(Sav(base)) ==> Whole(d, base))
    requires op == Rename(Sav(base), Zip(base)) ==> Sav(base) in d
    ensures RestWhole(Do(d, op), base) && WholeBetween(d, [op])
  {
    StepRest(d, op, base);
    AllFromRest(Do(d, op), base);
    NamesDiffer();
    hide Zip, Sav, WholeBetween, AllWhole, RestWhole;
    assert Whole(Do(d, op), base) <==> !PartialWrite(op) by { OwnWhole(d, op, base); }
    BetweenOne(d, op);
  }

  lemma OwnWhole(d: Disk, op: Op, base: string)
    requires RestWhole(d, base) && Own(op, base) && (op == Rename(Zip(base), Sav(base)) || op == Remove(Sav(base)) ==> Whole(d, base))
    requires op == Rename(Sav(base), Zip(base)) ==> Sav(base) in d
    ensures Whole(Do(d, op), base) <==> !PartialWrite(op)
  {
    NamesDiffer();
    hide Zip, Sav;
  }

  lemma {:induction false} WritesBetween(d: Disk, base: string, files: seq<File>)
    requires RestWhole(d, base)
    ensures WholeBetween(d, WriteOps(base, files)) && RestWhole(Exec(d, WriteOps(base, files)), base)
    ensures Lookup(Exec(d, WriteOps(base, files)), Sav(base)) == Lookup(d, Sav(base))
    decreases |files|
  {
    NamesDiffer();
    hide Zip, Sav, Exec, WholeBetween, RestWhole;
    var ops := WriteOps(base, files);
    if files == [] {
      assert ops == [];
      NothingBetween(d);
      ExecNone(d);
    } else {
      var op := Write(Zip(base), files[0]);
      assert ops == [op] + WriteOps(base, files[1..]);
      ExecOne(d, op);
      StepBetween(d, op, base);
      WritesBetween(Do(d, op), base, files[1..]);
      BetweenConcat(d, [op], WriteOps(base, files[1..]));
      ExecConcat(d, [op], WriteOps(base, files[1..]));
    }
  }

  /** Closing the zip and removing the `.sav`. */
  lemma CloseBetween(d: Disk, base: string, closed: File)
    requires RestWhole(d, base) && closed.complete
    ensures WholeBetween(d, [Write(Zip(base), closed), Remove(Sav(base))])
  {
    hide Zip, Sav, Exec, WholeBetween, RestWhole;
    var op := Write(Zip(base), closed);
    StepBetween(d, op, base);
    ExecOne(d, op);
    StepBetween(Do(d, op), Remove(Sav(base)), base);
    BetweenConcat(d, [op], [Remove(Sav(base))]);
    assert [op] + [Remove(Sav(base))] == [op, Remove(Sav(base))];
  }

  /** Moving the `.sav` back, if there is one. */
  lemma RestoreBetween(d: Disk, renamed: Disk, base: string)
    requires RestWhole(d, base) && (Sav(base) in renamed ==> Sav(base) in d)
    ensures WholeBetween(d, RestoreOps(renamed, base))
  {
    NamesDiffer();
    hide Zip, Sav, WholeBetween, RestWhole;
    if Sav(base) in renamed { StepBetween(d, Rename(Sav(base), Zip(base)), base); } else { NothingBetween(d); }
  }

  /** Giving up. */
  lemma CancelBetween(d: Disk, renamed: Disk, base: string)
    requires RestWhole(d, base) && Lookup(d, Sav(base)) == Lookup(renamed, Sav(base))
    ensures WholeBetween(d, [Remove(Zip(base))] + RestoreOps(renamed, base))
  {
    NamesDiffer();
    hide Zip, Sav, Exec, WholeBetween, RestWhole;
    var op := Remove(Zip(base));
    StepBetween(d, op, base);
    ExecOne(d, op);
    RestoreBetween(Do(d, op), renamed, base);
    BetweenConcat(d, [op], RestoreOps(renamed, base));
  }

  lemma BeginBetween(d: Disk, base: string, j: Job)
    requires Sav(base) !in d && AllWhole(d)
    ensures WholeBetween(d, BeginOps(d, base, j)) && RestWhole(Exec(d, BeginOps(d, base, j)), base)
  {
    hide Zip, Sav, Exec, WholeBetween;
    var op := Rename(Zip(base), Sav(base));
    assert Whole(d, base);
    if Found(d, base, j) {
      StepBetween(d, op, base);
      ExecOne(d, op);
    } else {
      NothingBetween(d);
      ExecNone(d);
    }
  }

  lemma JobBetween(d: Disk, base: string, j: Job)
    requires Sav(base) !in d && AllWhole(d) && j.closed.complete
    ensures WholeBetween(d, JobOps(d, base, j))
  {
    hide Zip, Sav, Exec, WholeBetween, AllWhole, RestWhole;
    var begin := BeginOps(d, base, j);
    BeginBetween(d, base, j);
    var renamed := Exec(d, begin);
    if Found(d, base, j) && j.renameFails {
      NothingBetween(d);
    } else if j.failure == AtCreate {
      RestoreBetween(renamed, renamed, base);
      BetweenConcat(d, begin, RestoreOps(renamed, base));
    } else {
      WritingBetween(d, base, j);
    }
  }

  lemma WritingBetween(d: Disk, base: string, j: Job)
    requires WholeBetween(d, BeginOps(d, base, j)) && RestWhole(Exec(d, BeginOps(d, base, j)), base) && j.closed.complete
    requires !(Found(d, base, j) && j.renameFails) && j.failure != AtCreate
    ensures WholeBetween(d, JobOps(d, base, j))
  {
    hide Zip, Sav, Exec, WholeBetween, RestWhole, JobOps, WriteOps, RestoreOps, BeginOps;
    var begin := BeginOps(d, base, j);
    var renamed := Exec(d, begin);
    var writing := WriteOps(base, [EMPTY] + j.writes);
    WritesBetween(renamed, base, [EMPTY] + j.writes);
    var written := Exec(renamed, writing);
    var ending := if j.failure == Nowhere then [Write(Zip(base), j.closed), Remove(Sav(base))]
                  else [Remove(Zip(base))] + RestoreOps(renamed, base);
    if j.failure == Nowhere { CloseBetween(written, base, j.closed); } else { CancelBetween(written, renamed, base); }
    BetweenConcat(renamed, writing, ending);
    BetweenConcat(d, begin, writing + ending);
    JobParts(d, base, j, writing, ending);
  }

  lemma JobParts(d: Disk, base: string, j: Job, writing: seq<Op>, ending: seq<Op>)
    requires !(Found(d, base, j) && j.renameFails) && j.failure != AtCreate && writing == WriteOps(base, [EMPTY] + j.writes)
    requires ending == if j.failure == Nowhere then [Write(Zip(base), j.closed), Remove(Sav(base))]
                       else [Remove(Zip(base))] + RestoreOps(Exec(d, BeginOps(d, base, j)), base)
    ensures JobOps(d, base, j) == BeginOps(d, base, j) + (writing + ending)
  {
    hide Zip, Sav, Exec, RestoreOps, BeginOps;
    assert writing == [Write(Zip(base), EMPTY)] + WriteOps(base, j.writes);
  }

  lemma NothingBetween(d: Disk)
    ensures WholeBetween(d, [])
  {}

  // ----- A whole run --------------------------------------------------------

  lemma StillClean(d: Disk, base: string, closed: File)
    requires Clean(d) && closed.complete
    ensures Clean(d[Zip(base) := closed])
  {
    NamesDiffer();
    hide Zip, Sav;
    var e := d[Zip(base) := closed];
    forall b
      ensures Whole(e, b) && Sav(b) !in e
    {
      assert Whole(d, b);
    }
  }

  /** From a clean directory, a run that is cut off leaves a partial zip exactly if a partial write was its last
      operation. */
  lemma {:induction false} RunBetween(d: Disk, prefix: string, jobs: seq<Job>)
    requires Clean(d) && forall j :: j in jobs ==> j.closed.complete
    ensures WholeBetween(d, RunOps(d, prefix, jobs))
    decreases |jobs|
  {
    hide Zip, Sav, Exec, JobOps, WholeBetween, AllWhole;
    if jobs == [] {
      NothingBetween(d);
    } else {
      var base, j := prefix + jobs[0].db, jobs[0];
      assert j in jobs;
      var ops := JobOps(d, base, j);
      JobBetween(d, base, j);
      JobAtomic(d, base, j);
      if Succeeds(d, base, j) {
        StillClean(d, base, j.closed);
        RunBetween(Exec(d, ops), prefix, jobs[1..]);
        BetweenConcat(d, ops, RunOps(Exec(d, ops), prefix, jobs[1..]));
      } else {
        assert ops + [] == ops;
      }
    }
  }

  /** The last operation of a session, if it is cut off after `lifetime` of them. */
  predicate DiesWriting(d: Disk, s: Session) {
    var ops := SessionOps(d, s.listing, s.passed, s.prefix, s.jobs);
    var k := if s.lifetime <= |ops| then s.lifetime else |ops|;
    k > 0 && PartialWrite(ops[k - 1])
  }

  /** When every zip of the directory is complete after a session, cut off anywhere. */
  lemma WholeIff(d: Disk, s: Session)
    requires Clean(d) && ListingOf(s.listing, d) && forall j :: j in s.jobs ==> j.closed.complete
    ensures AllWhole(AfterSession(d, s)) <==> !DiesWriting(d, s)
  {
    hide Exec, RunOps, RecoveryOps, AllWhole, SessionOps;
    var ops := SessionOps(d, s.listing, s.passed, s.prefix, s.jobs);
    CleanSession(d, s);
    RunBetween(d, s.prefix, s.jobs);
    ExecNone(d);
    assert ops[..|ops|] == ops && ops[..0] == [];
  }

  lemma CleanSession(d: Disk, s: Session)
    requires NoSavs(d) && ListingOf(s.listing, d)
    ensures SessionOps(d, s.listing, s.passed, s.prefix, s.jobs) == RunOps(d, s.prefix, s.jobs)
  {
    NothingToRecover(d, s.listing, s.passed);
    hide Exec, RunOps, RecoveryOps;
    ExecNone(d);
    assert [] + RunOps(d, s.prefix, s.jobs) == RunOps(d, s.prefix, s.jobs);
  }

  lemma NothingToRecover(d: Disk, listing: Listing, passed: set<string>)
    requires NoSavs(d) && ListingOf(listing, d)
    ensures RecoveryOps(d, listing, passed) == []
  {
    hide Sav;
    if listing.Entries? { NoLeftovers(listing.names, passed); }
  }

  // ----- What stays ---------------------------------------------------------

  /** The operation leaves the files of `b` alone. */
  predicate Avoids(op: Op, b: string) {
    match op
    case Rename(from, to) => from !in {Zip(b), Sav(b)} && to !in {Zip(b), Sav(b)}
    case Remove(n) => n !in {Zip(b), Sav(b)}
    case Write(n, _) => n !in {Zip(b), Sav(b)}
  }

  lemma {:induction false} AvoidedStays(d: Disk, ops: seq<Op>, b: string)
    requires forall op :: op in ops ==> Avoids(op, b)
    ensures Lookup(Exec(d, ops), Zip(b)) == Lookup(d, Zip(b)) && Lookup(Exec(d, ops), Sav(b)) == Lookup(d, Sav(b))
    decreases |ops|
  {
    hide Zip, Sav;
    if ops != [] {
      assert ops[0] in ops;
      AvoidedStays(Do(d, ops[0]), ops[1..], b);
    }
  }

  lemma {:induction false} RecoveryAvoids(d: Disk, bases: seq<string>, b: string)
    requires Sav(b) !in d
    ensures forall op :: op in RecoverOps(d, bases) ==> Avoids(op, b)
    decreases |bases|
  {
    NamesDiffer();
    hide Zip, Sav, Exec;
    if bases != [] {
      var ops := RecoverOne(d, bases[0]);
      assert forall op :: op in ops ==> Avoids(op, b);
      AvoidedStays(d, ops, b);
      RecoveryAvoids(Exec(d, ops), bases[1..], b);
    }
  }

  lemma JobAvoids(d: Disk, base: string, j: Job, b: string)
    requires base != b
    ensures forall op :: op in JobOps(d, base, j) ==> Avoids(op, b)
  {
    NamesDiffer();
    hide Zip, Sav, Exec;
  }

  lemma {:induction false} RunAvoids(d: Disk, prefix: string, jobs: seq<Job>, b: string)
    requires forall j :: j in jobs ==> prefix + j.db != b
    ensures forall op :: op in RunOps(d, prefix, jobs) ==> Avoids(op, b)
    decreases |jobs|
  {
    hide Avoids, Exec, JobOps;
    if jobs != [] {
      var base := prefix + jobs[0].db;
      assert jobs[0] in jobs;
      JobAvoids(d, base, jobs[0], b);
      RunAvoids(Exec(d, JobOps(d, base, jobs[0])), prefix, jobs[1..], b);
    }
  }

  /** No session dumps under the name. */
  ghost predicate Unnamed(sessions: seq<Session>, b: string) {
    forall s, j :: s in sessions && j in s.jobs ==> s.prefix + j.db != b
  }

  lemma SessionLeaves(d: Disk, s: Session, b: string)
    requires Sav(b) !in d && forall j :: j in s.jobs ==> s.prefix + j.db != b
    ensures Lookup(AfterSession(d, s), Zip(b)) == Lookup(d, Zip(b)) && Sav(b) !in AfterSession(d, s)
  {
    hide Avoids, Exec, RecoverOps, RunOps, Leftovers, Zip, Sav;
    var recovery := RecoveryOps(d, s.listing, s.passed);
    RecoveryAvoids(d, Leftovers(Names(s.listing), s.passed), b);
    RunAvoids(Exec(d, recovery), s.prefix, s.jobs, b);
    var ops := SessionOps(d, s.listing, s.passed, s.prefix, s.jobs);
    var done := if s.lifetime <= |ops| then ops[..s.lifetime] else ops;
    assert forall op :: op in done ==> op in recovery || op in RunOps(Exec(d, recovery), s.prefix, s.jobs);
    AvoidedStays(d, done, b);
  }

  /** A zip without a `.sav` beside it, complete or not, is what every later start finds and leaves, as long as nothing is
      dumped under its name: from the next day on. */
  lemma {:induction false} LoneZipStays(d: Disk, sessions: seq<Session>, b: string)
    requires Sav(b) !in d && Unnamed(sessions, b)
    ensures Lookup(AfterSessions(d, sessions), Zip(b)) == Lookup(d, Zip(b)) && Sav(b) !in AfterSessions(d, sessions)
    decreases |sessions|
  {
    hide AfterSession, Zip, Sav;
    if sessions != [] {
      assert sessions[0] in sessions;
      SessionLeaves(d, sessions[0], b);
      LoneZipStays(AfterSession(d, sessions[0]), sessions[1..], b);
    }
  }

  /** A run that dies right after creating the first zip of a name, or after creating one over a zip that it
      cannot examine, leaves it partial for good. */
  lemma FirstZipStaysPartial(d: Disk, listing: Listing, prefix: string, job: Job, later: seq<Session>)
    requires NoSavs(d) && ListingOf(listing, d) && !Found(d, prefix + job.db, job) && job.failure != AtCreate
    requires Unnamed(later, prefix + job.db)
    ensures var b := prefix + job.db; var first := Session(listing, {}, prefix, [job], 1);
      Lookup(AfterSessions(AfterSession(d, first), later), Zip(b)) == Some(EMPTY) && !EMPTY.complete
  {
    var b := prefix + job.db;
    hide Zip, Sav, AfterSession;
    FirstSession(d, listing, prefix, job);
    LoneZipStays(d[Zip(b) := EMPTY], later, b);
  }

  lemma FirstSession(d: Disk, listing: Listing, prefix: string, job: Job)
    requires NoSavs(d) && ListingOf(listing, d) && !Found(d, prefix + job.db, job) && job.failure != AtCreate
    ensures var b := prefix + job.db; var e := d[Zip(b) := EMPTY];
      AfterSession(d, Session(listing, {}, prefix, [job], 1)) == e && Sav(b) !in e
  {
    hide Exec, RunOps, SessionOps, AfterSession, Zip, Sav;
    var b, first := prefix + job.db, Session(listing, {}, prefix, [job], 1);
    NamesDiffer();
    FirstOp(d, prefix, job);
    CleanSession(d, first);
    AfterOne(d, first, Write(Zip(b), EMPTY));
    assert Sav(b) !in d;
  }

  /** So the only backup of a name is lost when it cannot be examined. */
  lemma UnseenIsLost(d: Disk, listing: Listing, prefix: string, job: Job)
    requires NoSavs(d) && ListingOf(listing, d) && job.unseen && job.failure != AtCreate
    ensures !HasComplete(AfterSession(d, Session(listing, {}, prefix, [job], 1)), prefix + job.db)
  {
    hide Zip, Sav, AfterSession;
    FirstSession(d, listing, prefix, job);
  }

  lemma AfterOne(d: Disk, s: Session, op: Op)
    requires var ops := SessionOps(d, s.listing, s.passed, s.prefix, s.jobs); |ops| >= 1 && ops[..1] == [op] && s.lifetime == 1
    ensures AfterSession(d, s) == Do(d, op)
  {
    hide Exec, SessionOps, Do;
    ExecOne(d, op);
  }

  lemma FirstOp(d: Disk, prefix: string, job: Job)
    requires !Found(d, prefix + job.db, job) && job.failure != AtCreate
    ensures var ops := RunOps(d, prefix, [job]); |ops| >= 1 && ops[..1] == [Write(Zip(prefix + job.db), EMPTY)]
  {
    hide Zip, Sav, Exec;
    var b := prefix + job.db;
    var ops := JobOps(d, b, job);
    assert ops[..1] == [Write(Zip(b), EMPTY)];
    hide JobOps;
    assert RunOps(d, prefix, [job])[..1] == ops[..1];
  }
}
