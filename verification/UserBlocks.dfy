/** internal/backup/usersql.go, second half: the records are printed as one block of SQL per
    database, a paragraph per user. Go walks its maps in any order, so the order of users and of a
    user's databases are parameters. */
module UserBlocks {
  import opened LineScanner
  import opened Text
  import opened SqlLiteral
  import opened UserRecords

  // ----- Statements ---------------------------------------------------------

  const CREATE := "CREATE USER IF NOT EXISTS "
  const IDENTIFIED := " IDENTIFIED BY PASSWORD "

  function CreateStmt(user: string, host: string, hash: string): string {
    CREATE + (Quoted(user) + ("@" + (Quoted(host) + CreateTail(hash))))
  }

  function CreateTail(hash: string): string {
    if hash != "" then IDENTIFIED + (Quoted(hash) + ";") else ";"
  }

  /** A grant without its IDENTIFIED clause; empty if nothing is left of it. */
  function GrantStmt(p: Patterns, raw: string): string {
    var stripped := TrimSpace(p.strip(raw));
    if stripped == "" || HasSuffix(stripped, ";") then stripped else stripped + ";"
  }

  function Creates(user: string, r: Rec): seq<string> {
    seq(|r.hosts|, i requires 0 <= i < |r.hosts| => CreateStmt(user, r.hosts[i], r.password))
  }

  /** The grants of a record that go into the block of `db`. */
  function GrantsFor(p: Patterns, grants: seq<GrantLine>, db: string): seq<GrantLine> {
    if grants == [] then [] else
    var g := grants[|grants| - 1];
    GrantsFor(p, grants[..|grants| - 1], db) + if g.db == db && GrantStmt(p, g.raw) != "" then [g] else []
  }

  function GrantStmts(p: Patterns, grants: seq<GrantLine>): seq<string> {
    seq(|grants|, i requires 0 <= i < |grants| => GrantStmt(p, grants[i].raw))
  }

  /** The statements for one user in the block of `db`. */
  function Paragraph(p: Patterns, user: string, r: Rec, db: string): seq<string> {
    Creates(user, r) + GrantStmts(p, GrantsFor(p, r.grants, db))
  }

  // ----- Text ---------------------------------------------------------------

  function Join(parts: seq<string>, sep: string): string {
    if parts == [] then "" else if |parts| == 1 then parts[0]
    else Join(parts[..|parts| - 1], sep) + sep + parts[|parts| - 1]
  }

  /** `strings.TrimRight(s, "\n")` */
  function TrimNewlines(s: string): string {
    if s != "" && s[|s| - 1] == '\n' then TrimNewlines(s[..|s| - 1]) else s
  }

  predicate EndsInSemicolon(s: string) { s != "" && s[|s| - 1] == ';' }

  lemma {:induction false} LinesTrimmed(stmts: seq<string>)
    requires stmts != [] && EndsInSemicolon(stmts[|stmts| - 1])
    ensures Unlines(stmts) == Join(stmts, "\n") + "\n" && TrimNewlines(Unlines(stmts)) == Join(stmts, "\n")
    ensures EndsInSemicolon(Join(stmts, "\n"))
  {
    LinesJoin(stmts);
    var j := Join(stmts, "\n");
    assert j[|j| - 1] == ';';
    assert (j + "\n")[..|j + "\n"| - 1] == j;
    assert TrimNewlines(j) == j;
  }

  lemma {:induction false} LinesJoin(stmts: seq<string>)
    requires stmts != []
    ensures Unlines(stmts) == Join(stmts, "\n") + "\n"
  {
    var init, last := stmts[..|stmts| - 1], stmts[|stmts| - 1];
    assert stmts == init + [last];
    UnlinesSnoc(init, last);
    if init == [] {
      UnlinesNone();
      assert "" + last == last;
    } else {
      LinesJoin(init);
    }
  }

  lemma CreateEnds(user: string, host: string, hash: string)
    ensures EndsInSemicolon(CreateStmt(user, host, hash))
  {
    hide EscapeSQL;
  }

  lemma GrantEnds(p: Patterns, raw: string)
    ensures GrantStmt(p, raw) == "" || EndsInSemicolon(GrantStmt(p, raw))
  {
    hide TrimSpace;
    var s := TrimSpace(p.strip(raw));
    if HasSuffix(s, ";") { assert s[|s| - 1..][0] == ';'; }
  }

  lemma {:induction false} GrantsForAll(p: Patterns, grants: seq<GrantLine>, db: string)
    ensures forall g :: g in GrantsFor(p, grants, db) <==> g in grants && g.db == db && GrantStmt(p, g.raw) != ""
  {
    hide GrantStmt;
    if grants != [] {
      var init, last := grants[..|grants| - 1], grants[|grants| - 1];
      GrantsForAll(p, init, db);
      assert forall g :: g in grants <==> g in init || g == last;
    }
  }

  lemma ParagraphEnds(p: Patterns, user: string, r: Rec, db: string)
    requires r.hosts != []
    ensures var para := Paragraph(p, user, r, db); para != [] && EndsInSemicolon(para[|para| - 1])
  {
    hide CreateStmt, GrantStmt, EndsInSemicolon;
    GrantsForAll(p, r.grants, db);
    var gs := GrantsFor(p, r.grants, db);
    if gs != [] {
      var g := gs[|gs| - 1];
      assert g in gs;
      GrantEnds(p, g.raw);
    } else {
      CreateEnds(user, r.hosts[|r.hosts| - 1], r.password);
    }
  }

  // ----- Blocks -------------------------------------------------------------

  /** The paragraphs of the block of `db`, the users taken in `order`. */
  function Block(p: Patterns, lines: seq<string>, order: seq<string>, db: string): seq<seq<string>> {
    if order == [] then [] else
    var u := order[|order| - 1];
    Block(p, lines, order[..|order| - 1], db) +
    if db in RecOf(p, lines, u).dbs then [Paragraph(p, u, RecOf(p, lines, u), db)] else []
  }

  function Texts(paras: seq<seq<string>>): seq<string> {
    seq(|paras|, i requires 0 <= i < |paras| => Join(paras[i], "\n"))
  }

  function BlockText(p: Patterns, lines: seq<string>, order: seq<string>, db: string): string {
    Join(Texts(Block(p, lines, order, db)), "\n\n")
  }

  function Get(m: map<string, string>, k: string): string { if k in m then m[k] else "" }

  /** The paragraph as the code builds it, one line after the other. */
  method ParagraphText(p: Patterns, name: string, hosts: seq<string>, passHash: string, grants: seq<GrantLine>, db: string)
    returns (block: string)
    ensures block == Unlines(Paragraph(p, name, Rec(hosts, passHash, map[], grants, {}), db))
  {
    hide Unlines, CreateStmt, GrantStmt;
    ghost var r := Rec(hosts, passHash, map[], grants, {});
    ghost var stmts: seq<string> := [];
    block := "";
    UnlinesNone();
    for i := 0 to |hosts|
      invariant stmts == Creates(name, r)[..i] && block == Unlines(stmts)
    {
      UnlinesSnoc(stmts, CreateStmt(name, hosts[i], passHash));
      stmts := stmts + [CreateStmt(name, hosts[i], passHash)];
      block := block + CreateStmt(name, hosts[i], passHash) + "\n";
    }
    for i := 0 to |grants|
      invariant stmts == Creates(name, r) + GrantStmts(p, GrantsFor(p, grants[..i], db)) && block == Unlines(stmts)
    {
      var g := grants[i];
      assert grants[..i + 1][..i] == grants[..i];
      if g.db != db { continue; }
      var stripped := GrantStmt(p, g.raw);
      if stripped != "" {
        GrantStmtsSnoc(p, GrantsFor(p, grants[..i], db), g);
        UnlinesSnoc(stmts, stripped);
        stmts := stmts + [stripped];
        block := block + stripped + "\n";
      }
    }
    assert grants[..|grants|] == grants;
  }

  lemma GrantStmtsSnoc(p: Patterns, grants: seq<GrantLine>, g: GrantLine)
    ensures GrantStmts(p, grants + [g]) == GrantStmts(p, grants) + [GrantStmt(p, g.raw)]
  {
    hide GrantStmt;
  }

  lemma JoinSnoc(parts: seq<string>, s: string, sep: string)
    ensures Join(parts + [s], sep) == if parts == [] then s else Join(parts, sep) + sep + s
  {
    assert (parts + [s])[..|parts + [s]| - 1] == parts;
  }

  lemma {:induction false} BlockTextNonempty(p: Patterns, lines: seq<string>, order: seq<string>, db: string)
    ensures BlockText(p, lines, order, db) == "" <==> Block(p, lines, order, db) == []
  {
    hide RecOf, Paragraph, Join;
    var paras := Block(p, lines, order, db);
    if order != [] {
      var init, u := order[..|order| - 1], order[|order| - 1];
      BlockTextNonempty(p, lines, init, db);
      if db in RecOf(p, lines, u).dbs {
        RecordIsPrintable(p, lines, u);
        BlockStep(p, lines, init, u, db);
      } else {
        assert Block(p, lines, init, db) + [] == Block(p, lines, init, db);
      }
    } else {
      JoinNone();
      assert Texts([]) == [];
    }
  }

  lemma JoinNone()
    ensures Join([], "\n\n") == ""
  {}

  /** One more user with grants on `db` adds the user's paragraph to the block. */
  lemma BlockStep(p: Patterns, lines: seq<string>, order: seq<string>, u: string, db: string)
    requires RecOf(p, lines, u).hosts != [] && db in RecOf(p, lines, u).dbs
    ensures var para := Paragraph(p, u, RecOf(p, lines, u), db); var before := Block(p, lines, order, db);
      var text := TrimNewlines(Unlines(para));
      && text != ""
      && Block(p, lines, order + [u], db) == before + [para]
      && BlockText(p, lines, order + [u], db) == if before == [] then text else BlockText(p, lines, order, db) + "\n\n" + text
  {
    hide RecOf, Paragraph, Join, Unlines;
    var para := Paragraph(p, u, RecOf(p, lines, u), db);
    var before := Block(p, lines, order, db);
    ParagraphEnds(p, u, RecOf(p, lines, u), db);
    LinesTrimmed(para);
    assert (order + [u])[..|order + [u]| - 1] == order;
    assert Texts(before + [para]) == Texts(before) + [Join(para, "\n")];
    JoinSnoc(Texts(before), Join(para, "\n"), "\n\n");
  }

  lemma BlockSame(p: Patterns, lines: seq<string>, order: seq<string>, u: string, db: string)
    requires db !in RecOf(p, lines, u).dbs
    ensures Block(p, lines, order + [u], db) == Block(p, lines, order, db)
  {
    hide RecOf, Paragraph;
    assert (order + [u])[..|order + [u]| - 1] == order;
  }

  lemma {:induction false} GrantDbsTrimmed(p: Patterns, lines: seq<string>, user: string)
    ensures forall g :: g in GrantsOf(p, lines, user) ==> Trimmed(g.db)
  {
    hide KindOf, Account, Trimmed, TrimSpace;
    if lines != [] {
      GrantDbsTrimmed(p, lines[1..], user);
      var m := p.onDb(TrimSpace(lines[0]));
      if m.Some? { TrimIsTrimmed(m.value); }
      TrimmedNone();
    }
  }

  lemma TrimmedNone()
    ensures Trimmed("")
  {}

  /** Some account of the walk is listed under this key. */
  ghost predicate Listed(users: map<string, seq<string>>, order: seq<string>, n: string) {
    exists u, h :: u in order && u in users && h in users[u] && n == u + "@" + h
  }

  /** `userNamesFromUsers`, on the hosts of each user: every account once, as user@host. */
  method UserNames(users: map<string, seq<string>>, order: seq<string>) returns (names: seq<string>)
    requires forall u :: u in order ==> u in users
    ensures forall i, j :: 0 <= i < j < |names| ==> names[i] != names[j]
    ensures forall n :: n in names <==> Listed(users, order, n)
  {
    hide Listed;
    names := [];
    forall n
      ensures !Listed(users, order[..0], n)
    {
      NoneListed(users, n);
    }
    for k := 0 to |order|
      invariant forall i, j :: 0 <= i < j < |names| ==> names[i] != names[j]
      invariant forall n :: n in names <==> Listed(users, order[..k], n)
    {
      var u := order[k];
      ghost var before := names;
      var hosts := users[u];
      for m := 0 to |hosts|
        invariant forall i, j :: 0 <= i < j < |names| ==> names[i] != names[j]
        invariant forall n :: n in names <==> n in before || KeyOf(u, hosts[..m], n)
      {
        var key := u + "@" + hosts[m];
        assert hosts[..m + 1] == hosts[..m] + [hosts[m]];
        if key !in names { names := names + [key]; }
      }
      assert hosts[..|hosts|] == hosts;
      assert order[..k + 1] == order[..k] + [u];
      forall n
        ensures Listed(users, order[..k + 1], n) <==> Listed(users, order[..k], n) || KeyOf(u, hosts, n)
      {
        ListedSnoc(users, order[..k], u, n);
      }
    }
    assert order[..|order|] == order;
  }

  predicate KeyOf(u: string, hosts: seq<string>, n: string) { exists h :: h in hosts && n == u + "@" + h }

  lemma NoneListed(users: map<string, seq<string>>, n: string)
    ensures !Listed(users, [], n)
  {}

  lemma ListedSnoc(users: map<string, seq<string>>, order: seq<string>, u: string, n: string)
    requires u in users
    ensures Listed(users, order + [u], n) <==> Listed(users, order, n) || KeyOf(u, users[u], n)
  {
    assert forall v :: v in order + [u] <==> v in order || v == u;
  }

  /** `ParseUserSQL` on the text of the dump: whatever the orders, the text for each database is its block, and
      the accounts listed are those the dump names. */
  method ParseUserSQL(p: Patterns, sql: string, order: seq<string>, dbOrder: map<string, seq<string>>, nameOrder: seq<string>)
    returns (dbToSQL: map<string, string>, userNames: seq<string>)
    requires Enumerates(order, Users(p, ScanLines(sql))) && Enumerates(nameOrder, Users(p, ScanLines(sql)))
    requires dbOrder.Keys == Users(p, ScanLines(sql))
    requires forall u :: u in order ==> Enumerates(dbOrder[u], RecOf(p, ScanLines(sql), u).dbs)
    ensures var lines := ScanLines(sql);
      && (forall db :: db in dbToSQL <==> exists u :: u in order && db in RecOf(p, lines, u).dbs)
      && (forall db :: db in dbToSQL ==> dbToSQL[db] == BlockText(p, lines, order, db))
    ensures forall i, j :: 0 <= i < j < |userNames| ==> userNames[i] != userNames[j]
    ensures forall n :: n in userNames <==> exists u, h :: NamedAt(p, ScanLines(sql), u, h) && n == u + "@" + h
  {
    hide RecOf, Block, Paragraph, BlockText, TrimSpace, Users, NamedAt, ScanFrom;
    var lines := ScanLines(sql);
    if |sql| == 0 {
      EmptyDump(p);
      return map[], [];
    }
    var users := ParseUserRecords(p, lines);
    forall u | u in users
      ensures RecOf(p, lines, u).hosts != [] && forall d :: d in RecOf(p, lines, u).dbs ==> d != "" && TrimSpace(d) == d
    {
      RecordIsPrintable(p, lines, u);
    }
    var hosts := map u | u in users :: users[u].hosts;
    userNames := UserNames(hosts, nameOrder);
    forall n
      ensures Listed(hosts, nameOrder, n) <==> exists u, h :: NamedAt(p, lines, u, h) && n == u + "@" + h
    {
      AccountsListed(p, lines, hosts, nameOrder, n);
    }
    dbToSQL := PrintAll(p, lines, users, order, dbOrder);
    forall db
      ensures db in dbToSQL <==> exists u :: u in order && db in RecOf(p, lines, u).dbs
    {
      BlockMembers(p, lines, order, db);
    }
  }

  lemma EmptyDump(p: Patterns)
    ensures ScanLines("") == [] && Users(p, []) == {} && forall u, h :: !NamedAt(p, [], u, h)
  {}

  lemma AccountsListed(p: Patterns, lines: seq<string>, hosts: map<string, seq<string>>, order: seq<string>, n: string)
    requires Enumerates(order, Users(p, lines)) && hosts.Keys == Users(p, lines)
    requires forall u :: u in hosts ==> hosts[u] == RecOf(p, lines, u).hosts
    ensures Listed(hosts, order, n) <==> exists u, h :: NamedAt(p, lines, u, h) && n == u + "@" + h
  {
    hide RecOf, Users, KindOf, Account;
    forall u | u in hosts
      ensures forall h :: h in hosts[u] <==> NamedAt(p, lines, u, h)
    {
      RecordSays(p, lines, u);
    }
    forall u, h | NamedAt(p, lines, u, h)
      ensures u in Users(p, lines)
    {
      NamedIsUser(p, lines, u, h);
    }
  }

  lemma NamedIsUser(p: Patterns, lines: seq<string>, u: string, h: string)
    requires NamedAt(p, lines, u, h)
    ensures u in Users(p, lines)
  {
    hide KindOf, Account;
    var i :| 0 <= i < |lines| && Concerns(p, lines[i], u) && Account(p, lines[i]).value.1 == h;
    assert lines[i] in lines;
  }

  ghost predicate Printable(p: Patterns, lines: seq<string>, u: UserRecord)
    reads u
  {
    && u.View() == RecOf(p, lines, u.name) && u.hosts != []
    && forall d :: d in u.dbs ==> d != "" && TrimSpace(d) == d
  }

  /** The blocks of all databases for the users of `order`. */
  ghost predicate Prints(p: Patterns, lines: seq<string>, order: seq<string>, out: map<string, string>) {
    forall db :: Get(out, db) == BlockText(p, lines, order, db) && (db in out <==> Block(p, lines, order, db) != [])
  }

  /** The outer loop. */
  method PrintAll(p: Patterns, lines: seq<string>, users: map<string, UserRecord>, order: seq<string>,
                  dbOrder: map<string, seq<string>>)
    returns (dbToSQL: map<string, string>)
    requires forall u :: u in order ==> u in users && u in dbOrder && users[u].name == u && Printable(p, lines, users[u])
    requires forall u :: u in order ==> Enumerates(dbOrder[u], users[u].dbs)
    ensures Prints(p, lines, order, dbToSQL)
  {
    hide RecOf, Block, Paragraph, BlockText, Printable, Prints, Enumerates;
    dbToSQL := map[];
    EmptyBlocks(p, lines);
    for i := 0 to |order|
      invariant Prints(p, lines, order[..i], dbToSQL)
    {
      assert order[i] in order;
      var u := users[order[i]];
      assert order[..i + 1] == order[..i] + [order[i]];
      dbToSQL := PrintUser(p, lines, order[..i], u, dbOrder[order[i]], dbToSQL);
    }
    assert order[..|order|] == order;
  }

  lemma EmptyBlocks(p: Patterns, lines: seq<string>)
    ensures Prints(p, lines, [], map[])
  {
    assert Texts([]) == [];
  }

  lemma {:induction false} BlockMembers(p: Patterns, lines: seq<string>, order: seq<string>, db: string)
    ensures Block(p, lines, order, db) != [] <==> exists u :: u in order && db in RecOf(p, lines, u).dbs
  {
    hide RecOf, Paragraph;
    if order != [] {
      var init, last := order[..|order| - 1], order[|order| - 1];
      BlockMembers(p, lines, init, db);
      assert forall u :: u in order <==> u in init || u == last;
    }
  }

  lemma RecordIsPrintable(p: Patterns, lines: seq<string>, u: string)
    requires u in Users(p, lines) || RecOf(p, lines, u).dbs != {}
    ensures u in Users(p, lines) && RecOf(p, lines, u).hosts != []
    ensures forall d :: d in RecOf(p, lines, u).dbs ==> d != "" && TrimSpace(d) == d
  {
    hide RecOf, KindOf, Account, TrimSpace, Trimmed, GrantsOf;
    if u !in Users(p, lines) { UnnamedIsNew(p, lines, u); }
    RecordSays(p, lines, u);
    GrantDbsTrimmed(p, lines, u);
    var l :| l in lines && KindOf(p, l) != Other && Account(p, l).Some? && Account(p, l).value.0 == u;
    var i :| 0 <= i < |lines| && lines[i] == l;
    assert NamedAt(p, lines, u, Account(p, l).value.1);
    forall d | d in RecOf(p, lines, u).dbs
      ensures TrimSpace(d) == d
    {
      TrimSame(d);
    }
  }

  /** One round of the outer loop. */
  method PrintUser(p: Patterns, lines: seq<string>, ghost before: seq<string>, u: UserRecord, dbs: seq<string>, dbToSQL: map<string, string>)
    returns (out: map<string, string>)
    requires Printable(p, lines, u) && Enumerates(dbs, u.dbs) && Prints(p, lines, before, dbToSQL)
    ensures Prints(p, lines, before + [u.name], out)
  {
    hide RecOf, Block, Paragraph, BlockText, TrimSpace, ParaText;
    forall db
      ensures BlockText(p, lines, before + [u.name], db) == Get(dbToSQL, db) + Addition(p, u, dbToSQL, db)
      ensures Block(p, lines, before + [u.name], db) != [] <==> db in u.dbs || db in dbToSQL
      ensures db in dbToSQL ==> dbToSQL[db] != ""
    {
      UserStep(p, lines, before, u, db, dbToSQL);
    }
    if |u.dbs| == 0 { return dbToSQL; }
    out := PrintDbs(p, u, dbs, dbToSQL);
  }

  /** What printing a user adds to the text of one database. */
  ghost function Addition(p: Patterns, u: UserRecord, dbToSQL: map<string, string>, db: string): string
    reads u
  {
    if db in u.dbs then (if db in dbToSQL then "\n\n" else "") + ParaText(p, u, db) else ""
  }

  /** The paragraphs of the user are added for the databases in `done`. */
  ghost predicate Added(p: Patterns, u: UserRecord, dbToSQL: map<string, string>, done: seq<string>, out: map<string, string>)
    reads u
  {
    && (forall db :: Get(out, db) == Get(dbToSQL, db) + if db in done then Addition(p, u, dbToSQL, db) else "")
    && (forall db :: db in out <==> db in done || db in dbToSQL)
  }

  lemma AddedNone(p: Patterns, u: UserRecord, dbToSQL: map<string, string>)
    ensures Added(p, u, dbToSQL, [], dbToSQL)
  {
    hide Addition;
    forall db
      ensures Get(dbToSQL, db) + "" == Get(dbToSQL, db)
    {
    }
  }

  lemma AddedOne(p: Patterns, u: UserRecord, dbToSQL: map<string, string>, done: seq<string>, out: map<string, string>, db: string, text: string)
    requires Added(p, u, dbToSQL, done, out) && text == Get(dbToSQL, db) + Addition(p, u, dbToSQL, db)
    ensures Added(p, u, dbToSQL, done + [db], out[db := text])
  {
    hide Addition;
    assert forall d :: d in done + [db] <==> d in done || d == db;
  }

  lemma AddedAll(p: Patterns, u: UserRecord, dbToSQL: map<string, string>, done: seq<string>, out: map<string, string>)
    requires Added(p, u, dbToSQL, done, out) && Enumerates(done, u.dbs)
    ensures forall db :: Get(out, db) == Get(dbToSQL, db) + Addition(p, u, dbToSQL, db)
    ensures forall db :: db in out <==> db in u.dbs || db in dbToSQL
  {
    hide Addition;
    forall db
      ensures Get(out, db) == Get(dbToSQL, db) + Addition(p, u, dbToSQL, db)
    {
      if db !in u.dbs { NoAddition(p, u, dbToSQL, db); }
    }
  }

  method PrintDbs(p: Patterns, u: UserRecord, dbs: seq<string>, dbToSQL: map<string, string>)
    returns (out: map<string, string>)
    requires u.hosts != [] && Enumerates(dbs, u.dbs) && forall d :: d in u.dbs ==> d != "" && TrimSpace(d) == d
    requires forall db :: db in dbToSQL ==> dbToSQL[db] != ""
    ensures forall db :: Get(out, db) == Get(dbToSQL, db) + Addition(p, u, dbToSQL, db)
    ensures forall db :: db in out <==> db in u.dbs || db in dbToSQL
  {
    hide TrimSpace, Addition, Added;
    out := dbToSQL;
    AddedNone(p, u, dbToSQL);
    for j := 0 to |dbs|
      invariant Added(p, u, dbToSQL, dbs[..j], out)
    {
      assert dbs[j] in u.dbs && dbs[j] !in dbs[..j];
      var db := TrimSpace(dbs[j]);
      if db == "" { continue; }
      AddedSame(p, u, dbToSQL, dbs[..j], out, db);
      var text := PrintDb(p, u, db, Get(out, db), dbToSQL);
      AddedOne(p, u, dbToSQL, dbs[..j], out, db, text);
      assert dbs[..j + 1] == dbs[..j] + [db];
      out := out[db := text];
    }
    assert dbs[..|dbs|] == dbs;
    AddedAll(p, u, dbToSQL, dbs, out);
  }

  lemma AddedSame(p: Patterns, u: UserRecord, dbToSQL: map<string, string>, done: seq<string>, out: map<string, string>, db: string)
    requires Added(p, u, dbToSQL, done, out) && db !in done
    ensures Get(out, db) == Get(dbToSQL, db)
  {
    hide Addition;
    assert Get(dbToSQL, db) + "" == Get(dbToSQL, db);
  }

  lemma NoAddition(p: Patterns, u: UserRecord, dbToSQL: map<string, string>, db: string)
    requires db !in u.dbs
    ensures Get(dbToSQL, db) == Get(dbToSQL, db) + Addition(p, u, dbToSQL, db)
  {}

  /** The text of one database with a user's paragraph added. */
  method PrintDb(p: Patterns, u: UserRecord, db: string, existing: string, ghost dbToSQL: map<string, string>)
    returns (text: string)
    requires u.hosts != [] && db in u.dbs && existing == Get(dbToSQL, db) && (db in dbToSQL ==> dbToSQL[db] != "")
    ensures text == Get(dbToSQL, db) + Addition(p, u, dbToSQL, db)
  {
    hide Unlines, TrimNewlines, Paragraph, ParaText;
    var s := ParagraphText(p, u.name, u.hosts, u.password, u.grants, db);
    ParaTextIs(p, u, db);
    assert s != "";
    text := existing;
    if text != "" { text := text + "\n\n"; }
    text := text + TrimNewlines(s);
  }

  ghost function ParaText(p: Patterns, u: UserRecord, db: string): string
    reads u
  {
    TrimNewlines(Unlines(Paragraph(p, u.name, u.View(), db)))
  }

  lemma ParaTextIs(p: Patterns, u: UserRecord, db: string)
    requires u.hosts != []
    ensures var l := Unlines(Paragraph(p, u.name, Rec(u.hosts, u.password, map[], u.grants, {}), db));
      l != "" && TrimNewlines(l) == ParaText(p, u, db)
  {
    hide Unlines, TrimNewlines;
    var a, b := Paragraph(p, u.name, Rec(u.hosts, u.password, map[], u.grants, {}), db), Paragraph(p, u.name, u.View(), db);
    assert a == b;
    ParagraphEnds(p, u.name, u.View(), db);
    hide Paragraph;
    LinesTrimmed(b);
  }

  lemma UserStep(p: Patterns, lines: seq<string>, before: seq<string>, u: UserRecord, db: string, dbToSQL: map<string, string>)
    requires u.View() == RecOf(p, lines, u.name) && u.hosts != []
    requires Get(dbToSQL, db) == BlockText(p, lines, before, db)
    requires db in dbToSQL <==> Block(p, lines, before, db) != []
    ensures BlockText(p, lines, before + [u.name], db) == Get(dbToSQL, db) + Addition(p, u, dbToSQL, db)
    ensures Block(p, lines, before + [u.name], db) != [] <==> db in u.dbs || db in dbToSQL
    ensures db in dbToSQL ==> dbToSQL[db] != ""
  {
    hide RecOf, Block, Paragraph, Unlines, TrimNewlines, Join;
    BlockTextNonempty(p, lines, before, db);
    if db in u.dbs {
      BlockStep(p, lines, before, u.name, db);
      assert "" + ("" + ParaText(p, u, db)) == ParaText(p, u, db);
    } else {
      BlockSame(p, lines, before, u.name, db);
      assert Get(dbToSQL, db) + "" == Get(dbToSQL, db);
    }
  }
}
