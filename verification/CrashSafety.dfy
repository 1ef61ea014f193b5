/** Crash safety of the overwrite protocol over all runs: the program may die between
    any two file operations of any run, and recovery starts the next one. */
module CrashSafety {
  import opened Files
  import opened Overwrite

  /** Some complete backup of `b` exists, under its own name or as `.sav`. */
  ghost predicate HasComplete(d: Disk, b: string) {
    || (Zip(b) in d && d[Zip(b)].complete)
    || (Sav(b) in d && d[Sav(b)].complete)
  }

  /** Sizes tell whole backups of one name from partial ones: `limit` lies between them. */
  predicate Sized(f: File, limit: nat) { f.complete <==> |f.data| >= limit }

  ghost predicate Safe(d: Disk, b: string, limit: nat) {
    && HasComplete(d, b)
    && (Zip(b) in d ==> Sized(d[Zip(b)], limit))
    && (Sav(b) in d ==> Sized(d[Sav(b)], limit))
  }

  /** The job's partial contents are smaller than the limit, its closed zip is whole. */
  ghost predicate JobSized(j: Job, limit: nat) {
    limit > 0 && j.closed.complete && Sized(j.closed, limit) && forall i :: 0 <= i < |j.writes| ==> Sized(j.writes[i], limit)
  }

  /** Wherever the operations are cut off, a complete backup is there. */
  ghost predicate AlwaysSafe(d: Disk, ops: seq<Op>, b: string, limit: nat) {
    forall k :: 0 <= k <= |ops| ==> Safe(Exec(d, ops[..k]), b, limit)
  }

  lemma AlwaysConcat(d: Disk, p: seq<Op>, q: seq<Op>, b: string, limit: nat)
    requires AlwaysSafe(d, p, b, limit) && AlwaysSafe(Exec(d, p), q, b, limit)
    ensures AlwaysSafe(d, p + q, b, limit)
  {
    hide Exec, Safe;
    forall k | 0 <= k <= |p + q|
      ensures Safe(Exec(d, (p + q)[..k]), b, limit)
    {
      if k <= |p| {
        assert (p + q)[..k] == p[..k];
      } else {
        assert (p + q)[..k] == p + q[..k - |p|];
        ExecConcat(d, p, q[..k - |p|]);
      }
    }
  }

  lemma AlwaysOne(d: Disk, op: Op, b: string, limit: nat)
    requires Safe(d, b, limit) && Safe(Do(d, op), b, limit)
    ensures AlwaysSafe(d, [op], b, limit)
  {
    hide Exec, Safe, Do;
    ExecOne(d, op);
    ExecNone(d);
    forall k | 0 <= k <= 1
      ensures Safe(Exec(d, [op][..k]), b, limit)
    {
      assert [op][..0] == [] && [op][..1] == [op];
    }
  }

  lemma AlwaysNone(d: Disk, b: string, limit: nat)
    requires Safe(d, b, limit)
    ensures AlwaysSafe(d, [], b, limit)
  {
    ExecNone(d);
  }

  /** Operations that leave the files of `b` alone, or only work on its zip while
      a complete `.sav` is there. */
  predicate Harmless(op: Op, b: string, saved: bool, limit: nat) {
    match op
    case Rename(from, to) => from !in {Zip(b), Sav(b)} && to !in {Zip(b), Sav(b)}
    case Remove(n) => n != Sav(b) && (n != Zip(b) || saved)
    case Write(n, f) => n != Sav(b) && (n != Zip(b) || (saved && Sized(f, limit)))
  }

  lemma {:induction false} HarmlessOps(d: Disk, ops: seq<Op>, b: string, saved: bool, limit: nat)
    requires Safe(d, b, limit) && (saved ==> Sav(b) in d && d[Sav(b)].complete)
    requires forall i :: 0 <= i < |ops| ==> Harmless(ops[i], b, saved, limit)
    ensures AlwaysSafe(d, ops, b, limit)
    ensures var e := Exec(d, ops); Lookup(e, Sav(b)) == Lookup(d, Sav(b)) && (!saved ==> Lookup(e, Zip(b)) == Lookup(d, Zip(b)))
    decreases |ops|
  {
    NamesDiffer();
    hide Zip, Sav;
    if ops == [] {
      AlwaysNone(d, b, limit);
    } else {
      var e := Do(d, ops[0]);
      assert Harmless(ops[0], b, saved, limit);
      assert ops == [ops[0]] + ops[1..];
      AlwaysOne(d, ops[0], b, limit);
      ExecOne(d, ops[0]);
      HarmlessOps(e, ops[1..], b, saved, limit);
      AlwaysConcat(d, [ops[0]], ops[1..], b, limit);
    }
  }

  // ----- One database -------------------------------------------------------

  /** No partial file is in the place of the zip. */
  predicate Whole(d: Disk, b: string) { Zip(b) in d ==> d[Zip(b)].complete }

  lemma JobOfOther(d: Disk, base: string, j: Job, b: string, limit: nat)
    requires base != b && Safe(d, b, limit)
    ensures AlwaysSafe(d, JobOps(d, base, j), b, limit)
    ensures Whole(Exec(d, JobOps(d, base, j)), b) <==> Whole(d, b)
  {
    NamesDiffer();
    hide Zip, Sav, Exec;
    var ops := JobOps(d, base, j);
    assert forall i :: 0 <= i < |ops| ==> Harmless(ops[i], b, false, limit);
    HarmlessOps(d, ops, b, false, limit);
  }

  /** The job does not write over the only complete backup: an old zip that is seen and moved over the `.sav` is
      complete, and so is the `.sav` beside an old zip that is not seen. */
  predicate Spares(d: Disk, b: string, j: Job) {
    Zip(b) in d ==>
      if !j.unseen then j.renameFails || d[Zip(b)].complete
      else if Sav(b) in d then d[Sav(b)].complete
      else j.failure == AtCreate
  }

  /** Before the new zip is created, a complete backup is under `.sav`. */
  lemma BegunIsSaved(d: Disk, b: string, j: Job, limit: nat)
    requires Safe(d, b, limit) && if Found(d, b, j) then d[Zip(b)].complete else Sav(b) in d && d[Sav(b)].complete
    ensures AlwaysSafe(d, BeginOps(d, b, j), b, limit)
    ensures var e := Exec(d, BeginOps(d, b, j)); Safe(e, b, limit) && Sav(b) in e && e[Sav(b)].complete
  {
    NamesDiffer();
    hide Zip, Sav, Exec, AlwaysSafe;
    var op := Rename(Zip(b), Sav(b));
    if Found(d, b, j) {
      ExecOne(d, op);
      AlwaysOne(d, op, b, limit);
    } else {
      ExecNone(d);
      AlwaysNone(d, b, limit);
    }
  }

  lemma JobOfSame(d: Disk, j: Job, b: string, limit: nat)
    requires Safe(d, b, limit) && Spares(d, b, j) && JobSized(j, limit)
    ensures AlwaysSafe(d, JobOps(d, b, j), b, limit)
  {
    NamesDiffer();
    hide Zip, Sav, Exec, AlwaysSafe;
    var begin := BeginOps(d, b, j);
    var renamed := Exec(d, begin);
    if Found(d, b, j) && j.renameFails {
      AlwaysNone(d, b, limit);
    } else if !Found(d, b, j) && Sav(b) !in d {
      ExecNone(d);
      assert JobOps(d, b, j) == [];
      AlwaysNone(d, b, limit);
    } else {
      BegunIsSaved(d, b, j, limit);
      if j.failure == AtCreate {
        AlwaysOne(renamed, Rename(Sav(b), Zip(b)), b, limit);
        AlwaysConcat(d, begin, RestoreOps(renamed, b), b, limit);
      } else {
        JobWrites(d, renamed, j, b, limit);
      }
    }
  }

  /** Otherwise its first operation leaves no complete backup. */
  lemma FirstOpLoses(d: Disk, j: Job, b: string, limit: nat)
    requires Safe(d, b, limit) && !Spares(d, b, j)
    ensures var ops := JobOps(d, b, j); |ops| >= 1 && !HasComplete(Exec(d, ops[..1]), b)
  {
    NamesDiffer();
    hide Zip, Sav, Exec;
    var ops := JobOps(d, b, j);
    ExecNone(d);
    var op := if !j.unseen then Rename(Zip(b), Sav(b)) else if j.failure == AtCreate then Rename(Sav(b), Zip(b)) else Write(Zip(b), EMPTY);
    assert ops[..1] == [op];
    ExecOne(d, op);
  }

  lemma JobWrites(d: Disk, renamed: Disk, j: Job, b: string, limit: nat)
    requires renamed == Exec(d, BeginOps(d, b, j)) && AlwaysSafe(d, BeginOps(d, b, j), b, limit) && JobSized(j, limit)
    requires Safe(renamed, b, limit) && Sav(b) in renamed && renamed[Sav(b)].complete
    requires !(Found(d, b, j) && j.renameFails) && j.failure != AtCreate
    ensures AlwaysSafe(d, JobOps(d, b, j), b, limit)
  {
    NamesDiffer();
    hide Zip, Sav, Exec, AlwaysSafe;
    var begin := BeginOps(d, b, j);
    var closing := if j.failure == Nowhere then Write(Zip(b), j.closed) else Remove(Zip(b));
    var final := if j.failure == Nowhere then Remove(Sav(b)) else Rename(Sav(b), Zip(b));
    var writing := [Write(Zip(b), EMPTY)] + WriteOps(b, j.writes);
    WritingIsHarmless(j, b, limit);
    HarmlessOps(renamed, writing, b, true, limit);
    var written := Exec(renamed, writing);
    AlwaysEnd(renamed, writing, b, limit);
    AlwaysOne(written, closing, b, limit);
    ExecOne(written, closing);
    AlwaysOne(Do(written, closing), final, b, limit);
    ExecTwo(written, closing, final);
    assert [closing] + [final] == [closing, final];
    AlwaysConcat(written, [closing], [final], b, limit);
    AlwaysConcat(renamed, writing, [closing, final], b, limit);
    ExecConcat(renamed, writing, [closing, final]);
    AlwaysConcat(d, begin, writing + [closing, final], b, limit);
    ExecConcat(d, begin, writing + [closing, final]);
    assert JobOps(d, b, j) == begin + (writing + [closing, final]);
  }

  lemma WritingIsHarmless(j: Job, b: string, limit: nat)
    requires JobSized(j, limit)
    ensures var ops := [Write(Zip(b), EMPTY)] + WriteOps(b, j.writes);
      forall i :: 0 <= i < |ops| ==> Harmless(ops[i], b, true, limit)
  {
    NamesDiffer();
  }

  // ----- A whole run --------------------------------------------------------

  /** Every job of `b` the run gets to finds things so that it spares a complete backup. */
  predicate RunSpares(d: Disk, prefix: string, jobs: seq<Job>, b: string)
    decreases |jobs|
  {
    jobs == [] ||
    var base := prefix + jobs[0].db;
    && (base == b ==> Spares(d, b, jobs[0]))
    && (Succeeds(d, base, jobs[0]) ==> RunSpares(Exec(d, JobOps(d, base, jobs[0])), prefix, jobs[1..], b))
  }

  /** A run keeps a complete backup wherever it is cut off exactly if none of its jobs finds a partial file in
      the place of the complete one it counts on. */
  lemma {:induction false} RunIsSafe(d: Disk, prefix: string, jobs: seq<Job>, b: string, limit: nat)
    requires Safe(d, b, limit)
    requires forall j :: j in jobs && prefix + j.db == b ==> JobSized(j, limit)
    ensures AlwaysSafe(d, RunOps(d, prefix, jobs), b, limit) <==> RunSpares(d, prefix, jobs, b)
    decreases |jobs|
  {
    hide Zip, Sav, Exec, JobOps, AlwaysSafe, Safe, JobSized, Succeeds, Spares;
    if jobs == [] {
      AlwaysNone(d, b, limit);
    } else {
      var base := prefix + jobs[0].db;
      var ops := JobOps(d, base, jobs[0]);
      if base == b && !Spares(d, b, jobs[0]) {
        RunLosesIt(d, prefix, jobs, b, limit);
      } else {
        if base == b { JobOfSame(d, jobs[0], b, limit); } else { JobOfOther(d, base, jobs[0], b, limit); }
        AlwaysEnd(d, ops, b, limit);
        if Succeeds(d, base, jobs[0]) {
          RunIsSafe(Exec(d, ops), prefix, jobs[1..], b, limit);
          AlwaysSplit(d, ops, RunOps(Exec(d, ops), prefix, jobs[1..]), b, limit);
        } else {
          assert ops + [] == ops;
        }
      }
    }
  }

  lemma RunLosesIt(d: Disk, prefix: string, jobs: seq<Job>, b: string, limit: nat)
    requires Safe(d, b, limit) && jobs != [] && prefix + jobs[0].db == b && !Spares(d, b, jobs[0])
    ensures var ops := RunOps(d, prefix, jobs); |ops| >= 1 && !HasComplete(Exec(d, ops[..1]), b)
    ensures !AlwaysSafe(d, RunOps(d, prefix, jobs), b, limit)
  {
    FirstOpLoses(d, jobs[0], b, limit);
    hide Zip, Sav, Exec, JobOps, HasComplete;
    assert RunOps(d, prefix, jobs)[..1] == JobOps(d, b, jobs[0])[..1];
  }

  // ----- Old zips that are seen ---------------------------------------------

  /** The run gets to a job of `b` that moves what is in the place of the zip to `.sav`. */
  predicate Overwrites(d: Disk, prefix: string, jobs: seq<Job>, b: string)
    decreases |jobs|
  {
    jobs != [] &&
    var base := prefix + jobs[0].db;
    if base == b then !jobs[0].renameFails
    else Succeeds(d, base, jobs[0]) && Overwrites(Exec(d, JobOps(d, base, jobs[0])), prefix, jobs[1..], b)
  }

  ghost predicate AllSeen(prefix: string, jobs: seq<Job>, b: string) {
    forall j :: j in jobs && prefix + j.db == b ==> !j.unseen && j.closed.complete
  }

  lemma WholeAfterJob(d: Disk, base: string, j: Job, b: string)
    requires Succeeds(d, base, j) && (base == b ==> j.closed.complete)
    ensures Whole(Exec(d, JobOps(d, base, j)), b) <==> base == b || Whole(d, b)
  {
    NamesDiffer();
    hide Zip, Sav, Exec, JobOps;
    JobEffect(d, base, j);
  }

  /** If all old zips of `b` are seen, the run spares it exactly if it finds no partial file in the place of the zip, or
      does not get to overwriting it. */
  lemma {:induction false} SparesIff(d: Disk, prefix: string, jobs: seq<Job>, b: string)
    requires AllSeen(prefix, jobs, b)
    ensures RunSpares(d, prefix, jobs, b) <==> Whole(d, b) || !Overwrites(d, prefix, jobs, b)
    decreases |jobs|
  {
    hide Zip, Sav, Exec, JobOps;
    if jobs != [] {
      var base, j := prefix + jobs[0].db, jobs[0];
      assert j in jobs;
      if Succeeds(d, base, j) {
        WholeAfterJob(d, base, j, b);
        SparesIff(Exec(d, JobOps(d, base, j)), prefix, jobs[1..], b);
      }
    }
  }

  lemma AlwaysSplit(d: Disk, p: seq<Op>, q: seq<Op>, b: string, limit: nat)
    requires AlwaysSafe(d, p, b, limit)
    ensures AlwaysSafe(d, p + q, b, limit) <==> AlwaysSafe(Exec(d, p), q, b, limit)
  {
    hide Exec, Safe;
    if AlwaysSafe(Exec(d, p), q, b, limit) {
      AlwaysConcat(d, p, q, b, limit);
    }
    if AlwaysSafe(d, p + q, b, limit) {
      forall k | 0 <= k <= |q|
        ensures Safe(Exec(Exec(d, p), q[..k]), b, limit)
      {
        assert (p + q)[..|p| + k] == p + q[..k];
        ExecConcat(d, p, q[..k]);
      }
    }
  }

  lemma AlwaysEnd(d: Disk, ops: seq<Op>, b: string, limit: nat)
    requires AlwaysSafe(d, ops, b, limit)
    ensures Safe(Exec(d, ops), b, limit)
  {
    assert ops[..|ops|] == ops;
  }

  lemma RecoverOneIsSafe(d: Disk, base: string, b: string, limit: nat)
    requires Safe(d, b, limit)
    ensures AlwaysSafe(d, RecoverOne(d, base), b, limit)
  {
    NamesDiffer();
    hide Zip, Sav, Exec, AlwaysSafe;
    var ops := RecoverOne(d, base);
    if base != b {
      HarmlessOps(d, ops, b, false, limit);
    } else if ops == [] {
      AlwaysNone(d, b, limit);
    } else {
      AlwaysOne(d, ops[0], b, limit);
      if |ops| == 2 {
        ExecOne(d, ops[0]);
        AlwaysOne(Do(d, ops[0]), ops[1], b, limit);
        AlwaysConcat(d, [ops[0]], [ops[1]], b, limit);
        assert ops == [ops[0]] + [ops[1]];
      } else {
        assert ops == [ops[0]];
      }
    }
  }

  lemma {:induction false} RecoveryIsSafe(d: Disk, bases: seq<string>, b: string, limit: nat)
    requires Safe(d, b, limit)
    ensures AlwaysSafe(d, RecoverOps(d, bases), b, limit)
    decreases |bases|
  {
    hide Zip, Sav, Exec, RecoverOne, AlwaysSafe, Safe;
    if bases == [] {
      AlwaysNone(d, b, limit);
    } else {
      var ops := RecoverOne(d, bases[0]);
      RecoverOneIsSafe(d, bases[0], b, limit);
      AlwaysEnd(d, ops, b, limit);
      RecoveryIsSafe(Exec(d, ops), bases[1..], b, limit);
      AlwaysConcat(d, ops, RecoverOps(Exec(d, ops), bases[1..]), b, limit);
    }
  }

  // ----- All runs -----------------------------------------------------------

  /** One start of the program: how the directory is listed, the names recovery has to pass over, the databases
      it dumps under names starting with `prefix`, and after how many operations it dies. */
  datatype Session = Session(listing: Listing, passed: set<string>, prefix: string, jobs: seq<Job>, lifetime: nat)

  /** The operations of recovery, on what the listing shows. */
  function RecoveryOps(d: Disk, listing: Listing, passed: set<string>): seq<Op> {
    RecoverOps(d, Leftovers(Names(listing), passed))
  }

  /** The run goes on even if recovery could do nothing. */
  function SessionOps(d: Disk, listing: Listing, passed: set<string>, prefix: string, jobs: seq<Job>): seq<Op> {
    var ops := RecoveryOps(d, listing, passed);
    ops + RunOps(Exec(d, ops), prefix, jobs)
  }

  function AfterSession(d: Disk, s: Session): Disk {
    var ops := SessionOps(d, s.listing, s.passed, s.prefix, s.jobs);
    Exec(d, if s.lifetime <= |ops| then ops[..s.lifetime] else ops)
  }

  function AfterSessions(d: Disk, sessions: seq<Session>): Disk
    decreases |sessions|
  {
    if sessions == [] then d else AfterSessions(AfterSession(d, sessions[0]), sessions[1..])
  }

  /** Every session lists the directory it finds, or fails to. */
  ghost predicate Possible(d: Disk, sessions: seq<Session>)
    decreases |sessions|
  {
    sessions == [] ||
    (ListingOf(sessions[0].listing, d) && Possible(AfterSession(d, sessions[0]), sessions[1..]))
  }

  ghost predicate AllSized(sessions: seq<Session>, b: string, limit: nat) {
    forall s, j :: s in sessions && j in s.jobs && s.prefix + j.db == b ==> JobSized(j, limit)
  }

  /** What recovery leaves is such that the run spares a complete backup. */
  predicate Guarded(d: Disk, s: Session, b: string) {
    RunSpares(Exec(d, RecoveryOps(d, s.listing, s.passed)), s.prefix, s.jobs, b)
  }

  predicate AllGuarded(d: Disk, sessions: seq<Session>, b: string)
    decreases |sessions|
  {
    sessions == [] ||
    (Guarded(d, sessions[0], b) && AllGuarded(AfterSession(d, sessions[0]), sessions[1..], b))
  }

  /** A session keeps a complete backup, after however many operations it dies, exactly if
      it is guarded. */
  lemma SessionIsSafe(d: Disk, s: Session, b: string, limit: nat)
    requires Safe(d, b, limit) && ListingOf(s.listing, d)
    requires forall j :: j in s.jobs && s.prefix + j.db == b ==> JobSized(j, limit)
    ensures (forall k: nat :: Safe(AfterSession(d, s.(lifetime := k)), b, limit)) <==> Guarded(d, s, b)
  {
    var ops := SessionOps(d, s.listing, s.passed, s.prefix, s.jobs);
    SessionOpsSafe(d, s, b, limit);
    hide Exec, SessionOps, Safe, JobSized, Guarded;
    if AlwaysSafe(d, ops, b, limit) {
      AlwaysEnd(d, ops, b, limit);
    }
    if forall k: nat :: Safe(AfterSession(d, s.(lifetime := k)), b, limit) {
      forall k | 0 <= k <= |ops|
        ensures Safe(Exec(d, ops[..k]), b, limit)
      {
        assert AfterSession(d, s.(lifetime := k)) == Exec(d, ops[..k]);
      }
    }
  }

  lemma SessionOpsSafe(d: Disk, s: Session, b: string, limit: nat)
    requires Safe(d, b, limit) && ListingOf(s.listing, d)
    requires forall j :: j in s.jobs && s.prefix + j.db == b ==> JobSized(j, limit)
    ensures AlwaysSafe(d, SessionOps(d, s.listing, s.passed, s.prefix, s.jobs), b, limit) <==> Guarded(d, s, b)
  {
    hide Exec, RecoverOps, RunOps, Leftovers, Safe, JobSized, RunSpares, AlwaysSafe, Zip, Sav, ListingOf;
    var ops := RecoveryOps(d, s.listing, s.passed);
    var e := Exec(d, ops);
    RecoveryIsSafe(d, Leftovers(Names(s.listing), s.passed), b, limit);
    AlwaysEnd(d, ops, b, limit);
    RunIsSafe(e, s.prefix, s.jobs, b, limit);
    AlwaysSplit(d, ops, RunOps(e, s.prefix, s.jobs), b, limit);
  }

  /** If all old zips of `b` are seen, a session is guarded exactly if it recovers `b`, or finds nothing partial in the
      place of the zip, or does not overwrite it. */
  lemma GuardedIff(d: Disk, s: Session, b: string, limit: nat)
    requires Safe(d, b, limit) && ListingOf(s.listing, d) && AllSeen(s.prefix, s.jobs, b)
    ensures Guarded(d, s, b) <==>
      || (s.listing.Entries? && b !in s.passed)
      || Whole(d, b)
      || !Overwrites(Exec(d, RecoveryOps(d, s.listing, s.passed)), s.prefix, s.jobs, b)
  {
    hide Exec, RecoverOps, RunOps, Leftovers, Safe, RunSpares, AlwaysSafe, Whole, Overwrites, ListingOf, AllSeen;
    var ops := RecoveryOps(d, s.listing, s.passed);
    RecoveryIsSafe(d, Leftovers(Names(s.listing), s.passed), b, limit);
    AlwaysEnd(d, ops, b, limit);
    RecoveryWhole(d, s, b, limit);
    SparesIff(Exec(d, ops), s.prefix, s.jobs, b);
  }

  /** Recovery of a name leaves nothing partial in the place of its zip; otherwise the zip is as before. */
  lemma RecoveryWhole(d: Disk, s: Session, b: string, limit: nat)
    requires ListingOf(s.listing, d) && Safe(Exec(d, RecoveryOps(d, s.listing, s.passed)), b, limit)
    ensures Whole(Exec(d, RecoveryOps(d, s.listing, s.passed)), b) <==>
      (s.listing.Entries? && b !in s.passed) || Whole(d, b)
  {
    if s.listing.Entries? {
      RecoverNamed(d, s.listing.names, s.passed, b);
      hide Exec, RecoverOps, Leftovers, Zip, Sav;
    } else {
      assert RecoveryOps(d, s.listing, s.passed) == [];
      ExecNone(d);
    }
  }

  /** Once a complete backup of a name exists, it is there in every state any number of
      runs can reach, each cut off after any number of operations, as long as each run is guarded: a run that could
      not recover the name does not overwrite a partial file an earlier one left, and none writes over a zip that
      it cannot examine. */
  lemma {:induction false} CrashSafe(d: Disk, sessions: seq<Session>, b: string, limit: nat)
    requires Safe(d, b, limit) && Possible(d, sessions) && AllSized(sessions, b, limit) && AllGuarded(d, sessions, b)
    ensures HasComplete(AfterSessions(d, sessions), b)
    decreases |sessions|
  {
    hide AfterSession, Guarded;
    if sessions != [] {
      var s := sessions[0];
      SessionIsSafe(d, s, b, limit);
      assert s.(lifetime := s.lifetime) == s;
      CrashSafe(AfterSession(d, s), sessions[1..], b, limit);
    }
  }

  /** Without the guard a complete backup can be lost: a run dies while writing over a
      backup, and the next start cannot list the directory. */
  lemma UnlistedIsLost(b: string, first: File, partial: File, closed: File)
    requires first.complete && !partial.complete && closed.complete && |partial.data| < |first.data| <= |closed.data|
    ensures var d := map[Zip(b) := first];
      var job := Job(b, false, false, Nowhere, [partial], closed);
      var dying := Session(Entries([Zip(b)]), {}, "", [job], 3);
      var next := Session(Unreadable, {}, "", [job], 1);
      Possible(d, [dying, next]) && Safe(d, b, |first.data|) && AllSized([dying, next], b, |first.data|) &&
      !HasComplete(AfterSessions(d, [dying, next]), b)
  {
    var d := map[Zip(b) := first];
    var job := Job(b, false, false, Nowhere, [partial], closed);
    var dying := Session(Entries([Zip(b)]), {}, "", [job], 3);
    var next := Session(Unreadable, {}, "", [job], 1);
    var e := map[Zip(b) := partial, Sav(b) := first];
    SafeBeforeAndAfter(b, first, partial);
    DyingRun(d, b, job, e);
    UnlistedRun(e, b, job, |first.data|);
    TwoSessions(d, dying, next);
    hide Zip, Sav, AfterSession, AfterSessions, Possible, Safe, HasComplete;
    assert forall s :: s in [dying, next] ==> s.jobs == [job];
  }

  lemma SafeBeforeAndAfter(b: string, first: File, partial: File)
    requires first.complete && !partial.complete && |partial.data| < |first.data|
    ensures Safe(map[Zip(b) := first], b, |first.data|)
    ensures var e := map[Zip(b) := partial, Sav(b) := first]; Safe(e, b, |first.data|) && !Whole(e, b)
  {
    NamesDiffer();
    hide Zip, Sav;
  }

  lemma UnlistedRun(e: Disk, b: string, job: Job, limit: nat)
    requires Safe(e, b, limit) && !Whole(e, b) && job.db == b && !job.renameFails && !job.unseen
    ensures !HasComplete(AfterSession(e, Session(Unreadable, {}, "", [job], 1)), b)
  {
    assert "" + b == b;
    RunLosesIt(e, "", [job], b, limit);
    hide Zip, Sav, Exec, RunOps;
    assert RecoverOps(e, []) == [];
    ExecNone(e);
    assert SessionOps(e, Unreadable, {}, "", [job]) == [] + RunOps(e, "", [job]) == RunOps(e, "", [job]);
  }

  // ----- The size hypothesis ------------------------------------------------

  /** Recovery of two files of one name keeps a complete one exactly when the file it takes for the
      newer state of affairs, the larger one, is complete. */
  lemma RecoveryKeepsLarger(d: Disk, b: string)
    requires Zip(b) in d && Sav(b) in d
    ensures var e := Exec(d, RecoverOne(d, b));
      HasComplete(e, b) <==> if |d[Sav(b)].data| >= |d[Zip(b)].data| then d[Sav(b)].complete else d[Zip(b)].complete
  {
    NamesDiffer();
    hide Zip, Sav, Exec;
    RecoverOneSettles(d, b);
  }

  /** Without the size hypothesis a complete backup can be lost: the second run of a day dies while
      its zip, still partial, has already outgrown the first one; the next start then
      keeps the partial file. */
  lemma SizesAreNeeded(b: string, first: File, partial: File, closed: File)
    requires first.complete && !partial.complete && |partial.data| > |first.data|
    ensures var d := map[Zip(b) := first];
      var dying := Session(Entries([Zip(b)]), {}, "", [Job(b, false, false, Nowhere, [partial], closed)], 3);
      var next := Session(Entries([Zip(b), Sav(b)]), {}, "", [], 1);
      Possible(d, [dying, next]) && HasComplete(d, b) && !HasComplete(AfterSessions(d, [dying, next]), b)
  {
    var d := map[Zip(b) := first];
    var job := Job(b, false, false, Nowhere, [partial], closed);
    var dying := Session(Entries([Zip(b)]), {}, "", [job], 3);
    var next := Session(Entries([Zip(b), Sav(b)]), {}, "", [], 1);
    var e := map[Zip(b) := partial, Sav(b) := first];
    PairListed(b, first, partial);
    DyingRun(d, b, job, e);
    NextRun(e, b);
    TwoSessions(d, dying, next);
    hide Zip, Sav, AfterSession, AfterSessions, Possible, ListingOf, HasComplete;
  }

  lemma PairListed(b: string, first: File, partial: File)
    requires first.complete && !partial.complete
    ensures ListingOf(Entries([Zip(b)]), map[Zip(b) := first]) && HasComplete(map[Zip(b) := first], b)
    ensures ListingOf(Entries([Zip(b), Sav(b)]), map[Zip(b) := partial, Sav(b) := first])
    ensures !HasComplete(map[Zip(b) := partial], b) && Zip(b) != Sav(b)
  {
    NamesDiffer();
    hide Zip, Sav;
  }

  lemma TwoSessions(d: Disk, s: Session, t: Session)
    ensures AfterSessions(d, [s, t]) == AfterSession(AfterSession(d, s), t)
    ensures Possible(d, [s, t]) <==> ListingOf(s.listing, d) && ListingOf(t.listing, AfterSession(d, s))
  {
    hide AfterSession, ListingOf;
    var e := AfterSession(d, s);
    assert [s, t][1..] == [t] && [t][1..] == [];
    assert AfterSessions(e, [t]) == AfterSessions(AfterSession(e, t), []);
    assert Possible(AfterSession(e, t), []);
  }

  lemma DyingRun(d: Disk, b: string, job: Job, e: Disk)
    requires |job.writes| == 1 && job.db == b && !job.unseen && !job.renameFails && job.failure == Nowhere
    requires d.Keys == {Zip(b)} && e == map[Zip(b) := job.writes[0], Sav(b) := d[Zip(b)]]
    ensures AfterSession(d, Session(Entries([Zip(b)]), {}, "", [job], 3)) == e
  {
    NamesDiffer();
    DyingOps(d, b, job);
    ThreeOps(d, Zip(b), Sav(b), job.writes[0]);
    hide Zip, Sav, Exec, SessionOps;
    var ops := SessionOps(d, Entries([Zip(b)]), {}, "", [job]);
    assert ops[..3] == [Rename(Zip(b), Sav(b)), Write(Zip(b), EMPTY), Write(Zip(b), job.writes[0])];
  }

  lemma ThreeOps(d: Disk, zip: string, sav: string, f: File)
    requires zip != sav && d.Keys == {zip}
    ensures Exec(d, [Rename(zip, sav), Write(zip, EMPTY), Write(zip, f)]) == map[zip := f, sav := d[zip]]
  {
    hide Exec;
    ExecThree(d, Rename(zip, sav), Write(zip, EMPTY), Write(zip, f));
  }

  lemma DyingOps(d: Disk, b: string, job: Job)
    requires |job.writes| == 1 && job.db == b && !job.unseen && !job.renameFails && job.failure == Nowhere
    requires d.Keys == {Zip(b)}
    ensures SessionOps(d, Entries([Zip(b)]), {}, "", [job]) ==
      [Rename(Zip(b), Sav(b)), Write(Zip(b), EMPTY), Write(Zip(b), job.writes[0]), Write(Zip(b), job.closed), Remove(Sav(b))]
  {
    NamesDiffer();
    NoLeftovers([Zip(b)], {});
    hide Zip, Sav, Leftovers, Exec;
    ExecNone(d);
    assert "" + b == b;
    var ops := JobOps(d, b, job);
    assert WriteOps(b, job.writes) == [Write(Zip(b), job.writes[0])];
    assert ops == [Rename(Zip(b), Sav(b)), Write(Zip(b), EMPTY), Write(Zip(b), job.writes[0]),
                   Write(Zip(b), job.closed), Remove(Sav(b))];
    hide JobOps;
    assert RunOps(Exec(d, ops), "", []) == [];
    assert RunOps(d, "", [job]) == ops + [] == ops;
    assert RecoverOps(d, []) == [];
  }

  lemma NoLeftovers(names: seq<string>, passed: set<string>)
    requires forall b :: Sav(b) !in names
    requires forall i, j :: 0 <= i < j < |names| ==> names[i] != names[j]
    ensures Leftovers(names, passed) == []
  {
    LeftoversOf(names, passed);
    if Leftovers(names, passed) != [] { assert Leftovers(names, passed)[0] in Leftovers(names, passed); }
  }

  lemma NextRun(e: Disk, b: string)
    requires e.Keys == {Zip(b), Sav(b)} && |e[Sav(b)].data| < |e[Zip(b)].data|
    ensures AfterSession(e, Session(Entries([Zip(b), Sav(b)]), {}, "", [], 1)) == map[Zip(b) := e[Zip(b)]]
  {
    NamesDiffer();
    var names := [Zip(b), Sav(b)];
    assert Leftovers(names, {}) == [b] by {
      assert names[..1] == [Zip(b)] && [Zip(b)][..0] == [];
      IsSav(Sav(b), b);
      LeftoversOf([Zip(b)], {});
      NoLeftovers([Zip(b)], {});
    }
    hide Zip, Sav, Leftovers, Exec;
    var ops := SessionOps(e, Entries(names), {}, "", []);
    assert RecoverOps(e, [b]) == [Remove(Sav(b))] + RecoverOps(Exec(e, [Remove(Sav(b))]), [b][1..]);
    assert ops == [Remove(Sav(b))];
    ExecOne(e, Remove(Sav(b)));
  }
}
