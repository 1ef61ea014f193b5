/** With the program's own regular expressions, dumps with plain names have their printed blocks as
    normal forms. */
module UserDumpLaws {
  import opened LineScanner
  import opened Text
  import opened UserRecords
  import opened UserBlocks
  import opened UserNormalForm
  import opened UserPatterns
  import opened UserPatternLaws
  import opened UserGrantLaws

  // ----- Names are on one line ----------------------------------------------

  lemma {:induction false} UpToOneLine(q: char, t: string)
    requires OneLine(t) && UpTo(q, t).Some?
    ensures OneLine(UpTo(q, t).value.0) && OneLine(UpTo(q, t).value.1)
  {
    if t[0] != q { UpToOneLine(q, t[1..]); }
  }

  lemma {:induction false} WordOfOneLine(t: string)
    requires OneLine(t)
    ensures OneLine(WordOf(t).0) && OneLine(WordOf(t).1)
  {
    if t != "" && IsWord(t[0]) { WordOfOneLine(t[1..]); }
  }

  lemma NameOneLine(t: string)
    requires OneLine(t) && ReadName(t).Some?
    ensures OneLine(ReadName(t).value.0) && OneLine(ReadName(t).value.1)
  {
    hide UpTo, WordOf;
    if IsQuote(t[0]) { UpToOneLine(t[0], t[1..]); } else { WordOfOneLine(t); }
  }

  lemma {:induction false} AccountOneLine(t: string)
    requires OneLine(t) && FindUserHost(t).Some?
    ensures OneLine(FindUserHost(t).value.0) && OneLine(FindUserHost(t).value.1)
  {
    hide ReadName, SkipBlanks;
    if UserHostHere(t).Some? {
      NameOneLine(t);
      var at := SkipBlanks(ReadName(t).value.1);
      assert OneLine(SkipBlanks(at[1..]));
      NameOneLine(SkipBlanks(at[1..]));
    } else {
      AccountOneLine(t[1..]);
    }
  }

  lemma {:induction false} WordHereOneLine(w: string, t: string)
    requires OneLine(t) && WordHere(w, t).Some?
    ensures OneLine(WordHere(w, t).value)
    decreases |w|
  {
    if w != "" { WordHereOneLine(w[1..], t[1..]); }
  }

  lemma AfterOneLine(w: string, t: string)
    requires OneLine(t) && After(w, t).Some?
    ensures OneLine(After(w, t).value)
  {
    hide WordHere, SkipBlanks;
    WordHereOneLine(w, t);
  }

  lemma ClauseOneLine(t: string)
    requires OneLine(t) && ClauseHere(t).Some?
    ensures OneLine(ClauseHere(t).value.0)
  {
    hide After, UpTo;
    AfterOneLine("IDENTIFIED", t);
    var a := After("IDENTIFIED", t).value;
    AfterOneLine("BY", a);
    var b := After("BY", a).value;
    AfterOneLine("PASSWORD", b);
    var c := After("PASSWORD", b).value;
    UpToOneLine(c[0], c[1..]);
  }

  lemma {:induction false} HashOneLine(t: string)
    requires OneLine(t) && FindClause(t).Some?
    ensures OneLine(FindClause(t).value)
  {
    hide ClauseHere;
    if ClauseHere(t).Some? { ClauseOneLine(t); } else { HashOneLine(t[1..]); }
  }

  lemma TrimOneLine(s: string)
    requires OneLine(s)
    ensures OneLine(TrimSpace(s))
  {
    hide TrimSpace;
    var a, b := TrimIsWithin(s);
  }

  /** What the patterns find in a line is trimmed and on one line. */
  lemma FoundOneLine(l: string)
    requires OneLine(l)
    ensures OneLine(Password(REGEXES, l)) && Trimmed(Password(REGEXES, l))
    ensures var a := Account(REGEXES, l); a.Some? ==>
      && OneLine(a.value.0) && Trimmed(a.value.0) && a.value.0 != ""
      && OneLine(a.value.1) && Trimmed(a.value.1) && a.value.1 != ""
  {
    hide FindUserHost, FindClause, TrimSpace, Trimmed, OneLine;
    var t := TrimSpace(l);
    TrimOneLine(l);
    Nothing();
    if FindClause(t).Some? {
      HashOneLine(t);
      TrimOneLine(FindClause(t).value);
      TrimIsTrimmed(FindClause(t).value);
    }
    if FindUserHost(t).Some? {
      AccountOneLine(t);
      var m := FindUserHost(t).value;
      TrimOneLine(m.0); TrimOneLine(m.1);
      TrimIsTrimmed(m.0); TrimIsTrimmed(m.1);
    }
  }

  lemma Nothing()
    ensures OneLine("") && Trimmed("") && Plain("")
  {}

  // ----- Dumps --------------------------------------------------------------

  /** The names and the hash in a line need no escaping, the names open no password clause, and if it is a grant on
      `db` it is the same without its password clauses. */
  ghost predicate PlainLine(l: string, db: string) {
    && (Account(REGEXES, l).Some? ==>
          var (user, host) := Account(REGEXES, l).value;
          Plain(user) && Plain(host) && Unopened(user) && Unopened(host))
    && Plain(Password(REGEXES, l))
    && (KindOf(REGEXES, l) == Grant && Database(REGEXES, l) == db ==> SameBared(l))
  }

  lemma {:induction false} FirstHashIsPlain(lines: seq<string>, user: string, db: string)
    requires forall l :: l in lines ==> OneLine(l) && PlainLine(l, db)
    ensures var h := FirstHash(REGEXES, lines, user); Plain(h) && OneLine(h) && Trimmed(h)
  {
    hide Concerns, Password, OneLine, Trimmed, Plain, Account, KindOf, SameBared, Unopened;
    if lines == [] {
      Nothing();
    } else {
      assert lines[0] in lines && PlainLine(lines[0], db);
      FoundOneLine(lines[0]);
      FirstHashIsPlain(lines[1..], user, db);
    }
  }

  lemma {:induction false} GrantsAreReread(lines: seq<string>, user: string, db: string, g: GrantLine)
    requires forall l :: l in lines ==> OneLine(l) && PlainLine(l, db)
    requires g in GrantsOf(REGEXES, lines, user) && g.db == db
    ensures GrantRereads(REGEXES, g.raw, db)
  {
    hide Concerns, OneLine, Plain, Account, KindOf, SameBared, Unopened, Password, Database, GrantRereads;
    assert lines[0] in lines && PlainLine(lines[0], db);
    if g in GrantsOf(REGEXES, lines[1..], user) {
      GrantsAreReread(lines[1..], user, db, g);
    } else {
      PlainLineIsReread(lines[0], db);
    }
  }

  lemma PlainLineIsReread(l: string, db: string)
    requires OneLine(l) && PlainLine(l, db) && KindOf(REGEXES, l) == Grant && Database(REGEXES, l) == db
    ensures GrantRereads(REGEXES, l, db)
  {
    hide OneLine, Plain, Account, KindOf, SameBared, Unopened, Password, Database, GrantRereads;
    BaredIsReread(l);
  }

  lemma UserIsReread(lines: seq<string>, user: string, db: string)
    requires forall l :: l in lines ==> OneLine(l) && PlainLine(l, db)
    ensures Rereads(REGEXES, user, RecOf(REGEXES, lines, user), db)
  {
    hide RecOf, OneLine, PlainLine, FirstHash, GrantsOf, CreateRereads, GrantRereads, Concerns, Plain;
    var r := RecOf(REGEXES, lines, user);
    RecordSays(REGEXES, lines, user);
    FirstHashIsPlain(lines, user, db);
    forall h | h in r.hosts
      ensures CreateRereads(REGEXES, user, h, r.password)
    {
      HostIsReread(lines, user, h, r.password, db);
    }
    forall g | g in r.grants && g.db == db
      ensures GrantRereads(REGEXES, g.raw, db)
    {
      GrantsAreReread(lines, user, db, g);
    }
  }

  lemma HostIsReread(lines: seq<string>, user: string, host: string, hash: string, db: string)
    requires forall l :: l in lines ==> OneLine(l) && PlainLine(l, db)
    requires NamedAt(REGEXES, lines, user, host) && Plain(hash) && OneLine(hash) && Trimmed(hash)
    ensures CreateRereads(REGEXES, user, host, hash)
  {
    hide OneLine, Plain, Trimmed, Account, KindOf, SameBared, Unopened, Password, Database, CreateRereads;
    var i :| 0 <= i < |lines| && Concerns(REGEXES, lines[i], user) && Account(REGEXES, lines[i]).value.1 == host;
    assert lines[i] in lines && PlainLine(lines[i], db);
    FoundOneLine(lines[i]);
    CreateIsReread(user, host, hash);
  }

  /** The normal form, with the program's own patterns: of every dump whose names and hashes need no escaping, whose
      names open no password clause and whose grants on the database are the same without their clauses, the
      printed text is read and printed again with the same paragraphs. */
  lemma DumpsAreNormal(sql: string, order: seq<string>, db: string, again: seq<string>)
    requires db != "" && forall l :: l in ScanLines(sql) ==> PlainLine(l, db)
    requires Enumerates(order, Users(REGEXES, ScanLines(sql)))
    requires Enumerates(again, Users(REGEXES, ScanLines(BlockText(REGEXES, ScanLines(sql), order, db))))
    ensures var lines := ScanLines(sql);
      multiset(Block(REGEXES, ScanLines(BlockText(REGEXES, lines, order, db)), again, db)) == multiset(Block(REGEXES, lines, order, db))
  {
    ScanGivesLines("", sql);
    hide ScanFrom, PlainLine, OneLine, Users, Block, BlockText, RecOf, Rereads;
    var lines := ScanLines(sql);
    forall u | u in order && db in RecOf(REGEXES, lines, u).dbs
      ensures Rereads(REGEXES, u, RecOf(REGEXES, lines, u), db)
    {
      UserIsReread(lines, u, db);
    }
    BlocksAreNormal(REGEXES, lines, order, db, again);
  }
}
