/** What the printed blocks promise: no grant is lost or copied, every grant finds its account created,
    the walk order of Go's maps does not matter, and blocks are a normal form of the dump. */
module UserBlockLaws {
  import opened Text
  import opened SqlLiteral
  import opened UserRecords
  import opened UserBlocks

  // ----- Conservation of grants ---------------------------------------------

  /** The grants printed in the block of `db`. */
  function Emitted(p: Patterns, lines: seq<string>, order: seq<string>, db: string): seq<GrantLine> {
    if order == [] then [] else
    var u := order[|order| - 1];
    Emitted(p, lines, order[..|order| - 1], db) +
    if db in RecOf(p, lines, u).dbs then GrantsFor(p, RecOf(p, lines, u).grants, db) else []
  }

  predicate IsGrantOn(p: Patterns, line: string, db: string) {
    KindOf(p, line) == Grant && Account(p, line).Some? && Database(p, line) == db && GrantStmt(p, line) != ""
  }

  /** The grants on `db` in the dump. */
  function InputGrants(p: Patterns, lines: seq<string>, db: string): seq<GrantLine> {
    if lines == [] then []
    else (if IsGrantOn(p, lines[0], db) then [GrantLine(lines[0], db)] else []) + InputGrants(p, lines[1..], db)
  }

  lemma {:induction false} GrantsForCount(p: Patterns, grants: seq<GrantLine>, db: string, g: GrantLine)
    ensures multiset(GrantsFor(p, grants, db))[g] == if g.db == db && GrantStmt(p, g.raw) != "" then multiset(grants)[g] else 0
  {
    hide GrantStmt;
    if grants != [] {
      var init, last := grants[..|grants| - 1], grants[|grants| - 1];
      GrantsForCount(p, init, db, g);
      assert grants == init + [last];
      assert multiset(grants)[g] == multiset(init)[g] + if last == g then 1 else 0;
    }
  }

  /** A grant of the dump is in the record of its own user, and in no other's, as often as in the dump. */
  lemma {:induction false} InputCount(p: Patterns, lines: seq<string>, user: string, db: string, g: GrantLine)
    requires g.db == db && GrantStmt(p, g.raw) != ""
    ensures multiset(GrantsOf(p, lines, user))[g] ==
      if Account(p, g.raw).Some? && Account(p, g.raw).value.0 == user then multiset(InputGrants(p, lines, db))[g] else 0
  {
    hide KindOf, Account, Database, GrantStmt;
    if lines != [] { InputCount(p, lines[1..], user, db, g); }
  }

  lemma {:induction false} InputOther(p: Patterns, lines: seq<string>, db: string, g: GrantLine)
    requires !(g.db == db && GrantStmt(p, g.raw) != "" && Account(p, g.raw).Some?)
    ensures multiset(InputGrants(p, lines, db))[g] == 0
  {
    hide KindOf, Account, Database, GrantStmt;
    if lines != [] { InputOther(p, lines[1..], db, g); }
  }

  lemma {:induction false} InputUser(p: Patterns, lines: seq<string>, db: string, g: GrantLine)
    requires g in InputGrants(p, lines, db)
    ensures Account(p, g.raw).Some? && Account(p, g.raw).value.0 in Users(p, lines)
  {
    hide KindOf, Account, Database, GrantStmt;
    if IsGrantOn(p, lines[0], db) && g == GrantLine(lines[0], db) {
      assert lines[0] in lines;
    } else {
      InputUser(p, lines[1..], db, g);
      assert forall l :: l in lines[1..] ==> l in lines;
    }
  }

  /** What one user contributes to the printed grants. */
  lemma Contribution(p: Patterns, lines: seq<string>, u: string, db: string, g: GrantLine)
    requires db != ""
    ensures multiset(if db in RecOf(p, lines, u).dbs then GrantsFor(p, RecOf(p, lines, u).grants, db) else [])[g] ==
      if Account(p, g.raw).Some? && Account(p, g.raw).value.0 == u then multiset(InputGrants(p, lines, db))[g] else 0
  {
    hide RecOf, Account, GrantsOf, InputGrants, GrantStmt;
    RecordSays(p, lines, u);
    var r := RecOf(p, lines, u);
    GrantsForCount(p, r.grants, db, g);
    if g.db == db && GrantStmt(p, g.raw) != "" {
      InputCount(p, lines, u, db, g);
      if db !in r.dbs { assert g !in r.grants; }
    } else {
      InputOther(p, lines, db, g);
    }
  }

  lemma {:induction false} EmittedCount(p: Patterns, lines: seq<string>, order: seq<string>, db: string, g: GrantLine)
    requires db != "" && forall i, j :: 0 <= i < j < |order| ==> order[i] != order[j]
    ensures multiset(Emitted(p, lines, order, db))[g] ==
      if Account(p, g.raw).Some? && Account(p, g.raw).value.0 in order then multiset(InputGrants(p, lines, db))[g] else 0
  {
    hide RecOf, Account, InputGrants, GrantsFor;
    if order != [] {
      var init, u := order[..|order| - 1], order[|order| - 1];
      EmittedCount(p, lines, init, db, g);
      Contribution(p, lines, u, db, g);
      assert u !in init;
      assert forall v :: v in order <==> v in init || v == u;
    }
  }

  /** Whatever order the users are walked in, the grants printed in the block of a database are exactly the
      grants of the dump on this database, each as often as it is there. */
  lemma GrantsConserved(p: Patterns, lines: seq<string>, order: seq<string>, db: string)
    requires db != "" && Enumerates(order, Users(p, lines))
    ensures multiset(Emitted(p, lines, order, db)) == multiset(InputGrants(p, lines, db))
  {
    hide Emitted, InputGrants, Account, Users;
    forall g
      ensures multiset(Emitted(p, lines, order, db))[g] == multiset(InputGrants(p, lines, db))[g]
    {
      EmittedCount(p, lines, order, db, g);
      if g in InputGrants(p, lines, db) { InputUser(p, lines, db, g); }
    }
  }

  /** Where the printed grants stand: behind the account statements of their paragraph. */
  lemma {:induction false} BlockHasEmitted(p: Patterns, lines: seq<string>, order: seq<string>, db: string)
    ensures AllGrants(p, lines, order, db) == GrantStmts(p, Emitted(p, lines, order, db))
  {
    hide RecOf, GrantsFor, GrantStmt;
    if order != [] {
      BlockHasEmitted(p, lines, order[..|order| - 1], db);
    }
  }

  /** The paragraphs of a block, each without its account statements, one after the other. */
  function AllGrants(p: Patterns, lines: seq<string>, order: seq<string>, db: string): seq<string> {
    if order == [] then [] else
    var u := order[|order| - 1];
    AllGrants(p, lines, order[..|order| - 1], db) +
    if db in RecOf(p, lines, u).dbs then Paragraph(p, u, RecOf(p, lines, u), db)[|RecOf(p, lines, u).hosts|..] else []
  }

  // ----- Replay -------------------------------------------------------------

  /** Reads an account statement as the server does: user, host and hash. */
  function ReadCreate(s: string): Option<(string, string, string)> {
    if !(CREATE <= s) then None else
    var user := ReadLiteral(s[|CREATE|..]);
    if user.None? || !("@" <= user.value.1) then None else
    var host := ReadLiteral(user.value.1[1..]);
    if host.None? then None
    else if host.value.1 == ";" then Some((user.value.0, host.value.0, ""))
    else if !(IDENTIFIED <= host.value.1) then None
    else
      var hash := ReadLiteral(host.value.1[|IDENTIFIED|..]);
      if hash.None? || hash.value.1 != ";" then None else Some((user.value.0, host.value.0, hash.value.0))
  }

  /** Every account statement is read by the server as the user, host and hash it was printed for, whatever
      characters they contain. */
  lemma CreateReadsBack(user: string, host: string, hash: string)
    ensures ReadCreate(CreateStmt(user, host, hash)) == Some((user, host, hash))
  {
    var tail := CreateTail(hash);
    TailReads(hash);
    hide Quoted, ReadLiteral, CreateTail;
    var afterHost := Quoted(host) + tail;
    DropFront(CREATE, Quoted(user) + ("@" + afterHost));
    LiteralRoundTrip(user, "@" + afterHost);
    DropFront("@", afterHost);
    LiteralRoundTrip(host, tail);
  }

  lemma TailReads(hash: string)
    ensures var t := CreateTail(hash);
      && t != "" && t[0] != '\''
      && (hash == "" <==> t == ";")
      && (hash != "" ==> IDENTIFIED <= t && ReadLiteral(t[|IDENTIFIED|..]) == Some((hash, ";")))
  {
    hide Quoted, ReadLiteral;
    if hash != "" {
      DropFront(IDENTIFIED, Quoted(hash) + ";");
      LiteralRoundTrip(hash, ";");
    }
  }

  /** Each grant in a user's paragraph follows the statement creating the very account it grants to, and
      that account is created once. */
  lemma ReplaySafe(p: Patterns, lines: seq<string>, user: string, db: string, k: nat)
    requires k < |GrantsFor(p, RecOf(p, lines, user).grants, db)|
    ensures var r := RecOf(p, lines, user);
      var para := Paragraph(p, user, r, db);
      var g := GrantsFor(p, r.grants, db)[k];
      && para[|r.hosts| + k] == GrantStmt(p, g.raw)
      && Account(p, g.raw).Some? && Account(p, g.raw).value.0 == user
      && (exists i :: 0 <= i < |r.hosts| && para[i] == CreateStmt(user, Account(p, g.raw).value.1, r.password))
      && forall i, j :: 0 <= i < j < |r.hosts| ==> para[i] != para[j]
  {
    hide RecOf, KindOf, Account, CreateStmt, GrantStmt, GrantsFor, GrantsOf, Database;
    var r := RecOf(p, lines, user);
    var g := GrantsFor(p, r.grants, db)[k];
    RecordSays(p, lines, user);
    GrantsForAll(p, r.grants, db);
    assert g in GrantsFor(p, r.grants, db);
    GrantsOfUser(p, lines, user, g);
    var h := Account(p, g.raw).value.1;
    assert h in r.hosts;
    CreatesAccounts(p, user, r, db, h);
  }

  /** The account statements of a paragraph: one per host. */
  lemma CreatesAccounts(p: Patterns, user: string, r: Rec, db: string, h: string)
    requires h in r.hosts && forall i, j :: 0 <= i < j < |r.hosts| ==> r.hosts[i] != r.hosts[j]
    ensures var para := Paragraph(p, user, r, db);
      && (exists i :: 0 <= i < |r.hosts| && para[i] == CreateStmt(user, h, r.password))
      && forall i, j :: 0 <= i < j < |r.hosts| ==> para[i] != para[j]
  {
    hide CreateStmt, GrantsFor;
    var n :| 0 <= n < |r.hosts| && r.hosts[n] == h;
    assert Paragraph(p, user, r, db)[n] == CreateStmt(user, h, r.password);
    forall i, j | 0 <= i < j < |r.hosts|
      ensures CreateStmt(user, r.hosts[i], r.password) != CreateStmt(user, r.hosts[j], r.password)
    {
      CreateReadsBack(user, r.hosts[i], r.password);
      CreateReadsBack(user, r.hosts[j], r.password);
    }
  }

  lemma {:induction false} GrantsOfUser(p: Patterns, lines: seq<string>, user: string, g: GrantLine)
    requires g in GrantsOf(p, lines, user)
    ensures KindOf(p, g.raw) == Grant && Account(p, g.raw).Some? && Account(p, g.raw).value.0 == user
    ensures g.db == Database(p, g.raw) && NamedAt(p, lines, user, Account(p, g.raw).value.1)
  {
    hide KindOf, Account, Database, NamedAt;
    if Concerns(p, lines[0], user) && KindOf(p, lines[0]) == Grant && g == GrantLine(lines[0], Database(p, lines[0])) {
      NamedAtFirst(p, lines, user, Account(p, g.raw).value.1);
    } else {
      GrantsOfUser(p, lines[1..], user, g);
      NamedAtFirst(p, lines, user, Account(p, g.raw).value.1);
    }
  }

  // ----- Order --------------------------------------------------------------

  lemma {:induction false} BlockConcat(p: Patterns, lines: seq<string>, a: seq<string>, b: seq<string>, db: string)
    ensures Block(p, lines, a + b, db) == Block(p, lines, a, db) + Block(p, lines, b, db)
    decreases |b|
  {
    hide RecOf, Paragraph;
    if b == [] {
      assert a + b == a;
    } else {
      assert (a + b)[..|a + b| - 1] == a + b[..|b| - 1];
      BlockConcat(p, lines, a, b[..|b| - 1], db);
    }
  }

  lemma WithoutOne(order: seq<string>, k: nat, names: set<string>)
    requires Enumerates(order, names) && k < |order|
    ensures Enumerates(order[..k] + order[k + 1..], names - {order[k]})
  {
    var rest := order[..k] + order[k + 1..];
    assert order == order[..k] + [order[k]] + order[k + 1..];
    forall n
      ensures n in rest <==> n in names - {order[k]}
    {
      if n in rest { var i :| 0 <= i < |rest| && rest[i] == n; }
    }
  }

  lemma NonemptyHasFirst(s: seq<string>)
    ensures s != [] ==> exists x :: x in s
  {
    if s != [] { assert s[0] in s; }
  }

  /** Two walks over the same users give the same paragraphs, in another order. */
  lemma {:induction false} OrderDoesNotMatter(p: Patterns, lines: seq<string>, a: seq<string>, b: seq<string>, names: set<string>, db: string)
    requires Enumerates(a, names) && Enumerates(b, names)
    ensures multiset(Block(p, lines, a, db)) == multiset(Block(p, lines, b, db))
    decreases |a|
  {
    hide Block;
    if a == [] {
      NonemptyHasFirst(b);
    } else {
      var n := |a| - 1;
      var u := a[n];
      assert u in a && u in b;
      var k :| 0 <= k < |b| && b[k] == u;
      WithoutOne(a, n, names);
      WithoutOne(b, k, names);
      assert a[..n] + a[n + 1..] == a[..n];
      OrderDoesNotMatter(p, lines, a[..n], b[..k] + b[k + 1..], names - {u}, db);
      assert a == a[..n] + [u] && b == b[..k] + ([u] + b[k + 1..]);
      BlockConcat(p, lines, a[..n], [u], db);
      BlockConcat(p, lines, b[..k], [u] + b[k + 1..], db);
      BlockConcat(p, lines, [u], b[k + 1..], db);
      BlockConcat(p, lines, b[..k], b[k + 1..], db);
    }
  }
}
