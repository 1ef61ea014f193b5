/** Blocks are a normal form: reading the block of a database as a dump and printing it again gives
    the same paragraphs. What the regular expressions find in the printed statements is the
    one hypothesis. */
module UserNormalForm {
  import opened LineScanner
  import opened Text
  import opened UserRecords
  import opened UserBlocks
  import opened UserBlockLaws

  /** The patterns read an account statement as the account it creates, on one line. */
  predicate CreateRereads(p: Patterns, user: string, host: string, hash: string) {
    var s := CreateStmt(user, host, hash);
    OneLine(s) && KindOf(p, s) == CreateUser && Account(p, s) == Some((user, host)) && Password(p, s) == hash
  }

  /** The patterns find in a stripped grant the account and database of the original, and nothing more to strip. */
  predicate GrantRereads(p: Patterns, raw: string, db: string) {
    var s := GrantStmt(p, raw);
    && s != "" && OneLine(s) && KindOf(p, s) == Grant && Account(p, s) == Account(p, raw)
    && Password(p, s) == "" && Database(p, s) == db && GrantStmt(p, s) == s
  }

  ghost predicate Rereads(p: Patterns, user: string, r: Rec, db: string) {
    && (forall h :: h in r.hosts ==> CreateRereads(p, user, h, r.password))
    && (forall g :: g in r.grants && g.db == db ==> GrantRereads(p, g.raw, db))
  }

  /** A record a dump can give. */
  ghost predicate WellGranted(p: Patterns, user: string, r: Rec) {
    && (forall i, j :: 0 <= i < j < |r.hosts| ==> r.hosts[i] != r.hosts[j])
    && (forall g :: g in r.grants ==> Account(p, g.raw).Some? && Account(p, g.raw).value.0 == user && Account(p, g.raw).value.1 in r.hosts)
    && (forall d :: d in r.dbs <==> d != "" && exists g :: g in r.grants && g.db == d)
  }

  lemma RecordIsWellGranted(p: Patterns, lines: seq<string>, user: string)
    ensures WellGranted(p, user, RecOf(p, lines, user))
  {
    hide RecOf, Account, GrantsOf, KindOf, Database;
    RecordSays(p, lines, user);
    forall g | g in RecOf(p, lines, user).grants
      ensures Account(p, g.raw).Some? && Account(p, g.raw).value.0 == user && Account(p, g.raw).value.1 in RecOf(p, lines, user).hosts
    {
      GrantsOfUser(p, lines, user, g);
    }
  }

  // ----- One paragraph ------------------------------------------------------

  function HashMap(hosts: seq<string>, hash: string): map<string, string> {
    if hash == "" then map[] else map h | h in hosts :: hash
  }

  lemma CreateNoted(p: Patterns, user: string, q: Rec, h: string, hash: string)
    requires CreateRereads(p, user, h, hash) && h !in q.hosts && h !in q.pwByHost && (q.password == "" || q.password == hash)
    ensures var s := CreateStmt(user, h, hash);
      && Concerns(p, s, user)
      && Note(p, q, s) == q.(hosts := q.hosts + [h], password := hash,
                             pwByHost := if hash == "" then q.pwByHost else q.pwByHost[h := hash])
  {
    hide CreateStmt, KindOf, Account, Password;
  }

  lemma {:induction false} RereadCreates(p: Patterns, user: string, r: Rec, k: nat)
    requires k <= |r.hosts| && forall i, j :: 0 <= i < j < |r.hosts| ==> r.hosts[i] != r.hosts[j]
    requires forall h :: h in r.hosts ==> CreateRereads(p, user, h, r.password)
    ensures Fold(p, NEW, Creates(user, r)[..k], user) ==
      Rec(r.hosts[..k], if k == 0 then "" else r.password, HashMap(r.hosts[..k], r.password), [], {})
  {
    hide CreateStmt, CreateRereads, Note, Fold, Concerns;
    if k == 0 {
      FoldNone(p, user);
      assert Creates(user, r)[..0] == [] && r.hosts[..0] == [];
    } else {
      RereadCreates(p, user, r, k - 1);
      var h := r.hosts[k - 1];
      var before, s := Creates(user, r)[..k - 1], CreateStmt(user, h, r.password);
      assert Creates(user, r)[..k] == before + [s];
      FoldConcat(p, NEW, before, [s], user);
      FoldOne(p, Fold(p, NEW, before, user), s, user);
      CreateNoted(p, user, Fold(p, NEW, before, user), h, r.password);
      assert r.hosts[..k] == r.hosts[..k - 1] + [h] && h !in r.hosts[..k - 1];
      assert HashMap(r.hosts[..k], r.password) == if r.password == "" then map[] else HashMap(r.hosts[..k - 1], r.password)[h := r.password];
    }
  }

  function Stripped(p: Patterns, grants: seq<GrantLine>, db: string): seq<GrantLine> {
    seq(|grants|, i requires 0 <= i < |grants| => GrantLine(GrantStmt(p, grants[i].raw), db))
  }

  lemma {:induction false} RereadGrants(p: Patterns, user: string, q: Rec, grants: seq<GrantLine>, db: string)
    requires db != "" && forall g :: g in grants ==> GrantRereads(p, g.raw, db)
    requires forall g :: g in grants ==>
      Account(p, g.raw).Some? && Account(p, g.raw).value.0 == user && Account(p, g.raw).value.1 in q.hosts
    ensures Fold(p, q, GrantStmts(p, grants), user) ==
      q.(grants := q.grants + Stripped(p, grants, db), dbs := if grants == [] then q.dbs else q.dbs + {db})
  {
    hide GrantStmt, KindOf, Account, Password, Database;
    if grants != [] {
      var init, g := grants[..|grants| - 1], grants[|grants| - 1];
      var s := GrantStmt(p, g.raw);
      assert g in grants && GrantRereads(p, g.raw, db);
      assert forall x :: x in init ==> x in grants;
      RereadGrants(p, user, q, init, db);
      assert GrantStmts(p, grants) == GrantStmts(p, init) + [s];
      FoldConcat(p, q, GrantStmts(p, init), [s], user);
      FoldOne(p, Fold(p, q, GrantStmts(p, init), user), s, user);
      assert Stripped(p, grants, db) == Stripped(p, init, db) + [GrantLine(s, db)];
    }
  }

  /** A user's own paragraph gives back hosts, password and grants. */
  lemma RereadOwn(p: Patterns, user: string, r: Rec, db: string)
    requires db != "" && WellGranted(p, user, r) && Rereads(p, user, r, db) && db in r.dbs
    ensures Fold(p, NEW, Paragraph(p, user, r, db), user) ==
      Rec(r.hosts, r.password, HashMap(r.hosts, r.password), Stripped(p, GrantsFor(p, r.grants, db), db), {db})
  {
    hide Fold, GrantStmt, KindOf, Account, CreateRereads, GrantRereads, CreateStmt, HashMap, Stripped;
    var gs := GrantsFor(p, r.grants, db);
    GrantsForAll(p, r.grants, db);
    assert Creates(user, r)[..|r.hosts|] == Creates(user, r) && r.hosts[..|r.hosts|] == r.hosts;
    RereadCreates(p, user, r, |r.hosts|);
    var g :| g in r.grants && g.db == db;
    HasStatement(p, g.raw, db);
    assert g in gs && Account(p, g.raw).value.1 in r.hosts;
    var q := Rec(r.hosts, r.password, HashMap(r.hosts, r.password), [], {});
    FoldConcat(p, NEW, Creates(user, r), GrantStmts(p, gs), user);
    RereadGrants(p, user, q, gs, db);
    assert [] + Stripped(p, gs, db) == Stripped(p, gs, db);
  }

  lemma HasStatement(p: Patterns, raw: string, db: string)
    requires GrantRereads(p, raw, db)
    ensures GrantStmt(p, raw) != ""
  {}

  lemma ParagraphConcerns(p: Patterns, user: string, r: Rec, db: string, s: string)
    requires WellGranted(p, user, r) && Rereads(p, user, r, db) && s in Paragraph(p, user, r, db)
    ensures KindOf(p, s) != Other && Account(p, s).Some? && Account(p, s).value.0 == user
  {
    hide CreateStmt, GrantStmt, KindOf, Account, Password, Database;
    var gs := GrantsFor(p, r.grants, db);
    if s in Creates(user, r) {
      var i :| 0 <= i < |r.hosts| && s == CreateStmt(user, r.hosts[i], r.password);
      assert CreateRereads(p, user, r.hosts[i], r.password);
    } else {
      var i :| 0 <= i < |gs| && s == GrantStmt(p, gs[i].raw);
      GrantsForAll(p, r.grants, db);
      assert gs[i] in gs;
      assert GrantRereads(p, gs[i].raw, db);
    }
  }

  lemma {:induction false} FoldOthers(p: Patterns, q: Rec, lines: seq<string>, user: string)
    requires forall l :: l in lines ==> !Concerns(p, l, user)
    ensures Fold(p, q, lines, user) == q
    decreases |lines|
  {
    hide Concerns;
    if lines != [] { FoldOthers(p, q, lines[1..], user); }
  }

  /** Printing what was read back gives the same paragraph. */
  lemma ReprintOwn(p: Patterns, user: string, r: Rec, db: string)
    requires WellGranted(p, user, r) && Rereads(p, user, r, db)
    ensures var gs := Stripped(p, GrantsFor(p, r.grants, db), db);
      Paragraph(p, user, Rec(r.hosts, r.password, HashMap(r.hosts, r.password), gs, {db}), db) == Paragraph(p, user, r, db)
  {
    hide GrantStmt, CreateStmt, KindOf, Account, Password, Database, HashMap, GrantsFor;
    var kept := GrantsFor(p, r.grants, db);
    var gs := Stripped(p, kept, db);
    GrantsForAll(p, r.grants, db);
    forall i | 0 <= i < |kept|
      ensures gs[i].db == db && GrantStmt(p, gs[i].raw) == GrantStmt(p, kept[i].raw) != ""
    {
      assert kept[i] in kept;
      assert GrantRereads(p, kept[i].raw, db);
    }
    AllKept(p, gs, db);
    assert GrantStmts(p, gs) == GrantStmts(p, kept);
  }

  lemma {:induction false} AllKept(p: Patterns, grants: seq<GrantLine>, db: string)
    requires forall i :: 0 <= i < |grants| ==> grants[i].db == db && GrantStmt(p, grants[i].raw) != ""
    ensures GrantsFor(p, grants, db) == grants
  {
    hide GrantStmt;
    if grants != [] {
      AllKept(p, grants[..|grants| - 1], db);
      assert grants == grants[..|grants| - 1] + [grants[|grants| - 1]];
    }
  }

  // ----- The whole block ----------------------------------------------------

  /** The lines of a block, with the blank line that separates paragraphs behind each. */
  function BlockLines(p: Patterns, lines: seq<string>, order: seq<string>, db: string): seq<string> {
    if order == [] then [] else
    var u := order[|order| - 1];
    BlockLines(p, lines, order[..|order| - 1], db) +
    if db in RecOf(p, lines, u).dbs then Paragraph(p, u, RecOf(p, lines, u), db) + [""] else []
  }

  /** These are the lines of the text that is printed. */
  lemma {:induction false} BlockTextLines(p: Patterns, lines: seq<string>, order: seq<string>, db: string)
    ensures Unlines(BlockLines(p, lines, order, db)) ==
      if Block(p, lines, order, db) == [] then "" else BlockText(p, lines, order, db) + "\n\n"
  {
    hide RecOf, Paragraph, Unlines, BlockText, TrimNewlines, Join;
    if order == [] {
      UnlinesNone();
    } else {
      var init, u := order[..|order| - 1], order[|order| - 1];
      BlockTextLines(p, lines, init, db);
      assert order == init + [u];
      if db in RecOf(p, lines, u).dbs {
        var para := Paragraph(p, u, RecOf(p, lines, u), db);
        RecordIsPrintable(p, lines, u);
        BlockStep(p, lines, init, u, db);
        ParagraphEnds(p, u, RecOf(p, lines, u), db);
        ParagraphLines(para);
        UnlinesConcat(BlockLines(p, lines, init, db), para + [""]);
        Assoc(BlockText(p, lines, init, db) + "\n\n", TrimNewlines(Unlines(para)), "\n\n");
      } else {
        BlockSame(p, lines, init, u, db);
        BlockTextSame(p, lines, init, u, db);
        assert BlockLines(p, lines, order, db) == BlockLines(p, lines, init, db);
      }
    }
  }

  lemma ParagraphLines(para: seq<string>)
    requires para != [] && EndsInSemicolon(para[|para| - 1])
    ensures Unlines(para + [""]) == TrimNewlines(Unlines(para)) + "\n\n"
  {
    hide TrimNewlines, Join, Unlines;
    LinesTrimmed(para);
    UnlinesSnoc(para, "");
  }

  lemma BlockTextSame(p: Patterns, lines: seq<string>, order: seq<string>, u: string, db: string)
    requires Block(p, lines, order + [u], db) == Block(p, lines, order, db)
    ensures BlockText(p, lines, order + [u], db) == BlockText(p, lines, order, db)
  {}

  ghost predicate AllReread(p: Patterns, lines: seq<string>, order: seq<string>, db: string) {
    forall u :: u in order && db in RecOf(p, lines, u).dbs ==> Rereads(p, u, RecOf(p, lines, u), db)
  }

  lemma BlankIsOther(p: Patterns)
    ensures KindOf(p, "") == Other
  {}

  lemma RereadOneMore(p: Patterns, lines: seq<string>, u: string, db: string, q: Rec, v: string)
    requires db != "" && db in RecOf(p, lines, u).dbs && Rereads(p, u, RecOf(p, lines, u), db)
    requires u == v ==> q == NEW
    ensures var r := RecOf(p, lines, u);
      Fold(p, q, Paragraph(p, u, r, db) + [""], v) ==
      if u == v then Rec(r.hosts, r.password, HashMap(r.hosts, r.password), Stripped(p, GrantsFor(p, r.grants, db), db), {db}) else q
  {
    hide RecOf, Paragraph, Fold, Rereads, WellGranted, HashMap, Stripped, KindOf, Account;
    var para := Paragraph(p, u, RecOf(p, lines, u), db);
    RecordIsWellGranted(p, lines, u);
    FoldConcat(p, q, para, [""], v);
    BlankIsOther(p);
    FoldOne(p, Fold(p, q, para, v), "", v);
    if u == v {
      RereadOwn(p, u, RecOf(p, lines, u), db);
    } else {
      forall l | l in para
        ensures !Concerns(p, l, v)
      {
        ParagraphConcerns(p, u, RecOf(p, lines, u), db, l);
      }
      FoldOthers(p, q, para, v);
    }
  }

  lemma {:induction false} RereadLines(p: Patterns, lines: seq<string>, order: seq<string>, db: string, v: string)
    requires db != "" && AllReread(p, lines, order, db)
    requires forall i, j :: 0 <= i < j < |order| ==> order[i] != order[j]
    ensures var r := RecOf(p, lines, v);
      RecOf(p, BlockLines(p, lines, order, db), v) ==
      if v in order && db in r.dbs
      then Rec(r.hosts, r.password, HashMap(r.hosts, r.password), Stripped(p, GrantsFor(p, r.grants, db), db), {db})
      else NEW
    decreases |order|
  {
    hide Paragraph, Rereads, HashMap, Stripped, Fold, GrantsFor;
    if order == [] {
      FoldNone(p, v);
    } else {
      var init, u := order[..|order| - 1], order[|order| - 1];
      assert u !in init;
      assert forall w :: w in order <==> w in init || w == u;
      RereadLines(p, lines, init, db, v);
      var before := BlockLines(p, lines, init, db);
      if db in RecOf(p, lines, u).dbs {
        FoldConcat(p, NEW, before, Paragraph(p, u, RecOf(p, lines, u), db) + [""], v);
        RereadOneMore(p, lines, u, db, RecOf(p, before, v), v);
      } else {
        assert before + [] == before;
      }
    }
  }

  lemma FoldNone(p: Patterns, v: string)
    ensures RecOf(p, [], v) == NEW
  {}

  /** The users of a block, in the order of the walk that printed it. */
  function BlockUsers(p: Patterns, lines: seq<string>, order: seq<string>, db: string): seq<string> {
    if order == [] then [] else
    var u := order[|order| - 1];
    BlockUsers(p, lines, order[..|order| - 1], db) + if db in RecOf(p, lines, u).dbs then [u] else []
  }

  lemma {:induction false} BlockUsersOf(p: Patterns, lines: seq<string>, order: seq<string>, db: string)
    requires forall i, j :: 0 <= i < j < |order| ==> order[i] != order[j]
    ensures Enumerates(BlockUsers(p, lines, order, db), set u | u in order && db in RecOf(p, lines, u).dbs)
  {
    hide RecOf;
    if order != [] {
      var init, u := order[..|order| - 1], order[|order| - 1];
      BlockUsersOf(p, lines, init, db);
      assert u !in init;
      assert forall v :: v in order <==> v in init || v == u;
      var before, after := BlockUsers(p, lines, init, db), BlockUsers(p, lines, order, db);
      assert forall i :: 0 <= i < |before| ==> before[i] in before;
      assert forall v :: v in after <==> v in before || (v == u && db in RecOf(p, lines, u).dbs);
    }
  }

  lemma {:induction false} BlockLinesName(p: Patterns, lines: seq<string>, order: seq<string>, db: string)
    requires db != "" && AllReread(p, lines, order, db)
    ensures Users(p, BlockLines(p, lines, order, db)) == set u | u in order && db in RecOf(p, lines, u).dbs
  {
    hide RecOf, Paragraph, Rereads, KindOf, Account, WellGranted;
    if order != [] {
      var init, u := order[..|order| - 1], order[|order| - 1];
      assert forall v :: v in order <==> v in init || v == u;
      BlockLinesName(p, lines, init, db);
      if db in RecOf(p, lines, u).dbs { ParagraphNames(p, lines, u, db); }
      UsersConcat(p, BlockLines(p, lines, init, db),
        if db in RecOf(p, lines, u).dbs then Paragraph(p, u, RecOf(p, lines, u), db) + [""] else []);
    }
  }

  lemma UsersConcat(p: Patterns, a: seq<string>, b: seq<string>)
    ensures Users(p, a + b) == Users(p, a) + Users(p, b)
  {
    hide KindOf, Account;
    assert forall l :: l in a + b <==> l in a || l in b;
  }

  lemma ParagraphNames(p: Patterns, lines: seq<string>, u: string, db: string)
    requires db != "" && db in RecOf(p, lines, u).dbs && Rereads(p, u, RecOf(p, lines, u), db)
    ensures Users(p, Paragraph(p, u, RecOf(p, lines, u), db) + [""]) == {u}
  {
    hide RecOf, Rereads, KindOf, Account, WellGranted, Paragraph, Users;
    RecordIsWellGranted(p, lines, u);
    RecordIsPrintable(p, lines, u);
    ParagraphEnds(p, u, RecOf(p, lines, u), db);
    var para := Paragraph(p, u, RecOf(p, lines, u), db);
    forall l | l in para
      ensures KindOf(p, l) != Other && Account(p, l).Some? && Account(p, l).value.0 == u
    {
      ParagraphConcerns(p, u, RecOf(p, lines, u), db, l);
    }
    OnlyUser(p, para, u);
  }

  lemma OnlyUser(p: Patterns, para: seq<string>, u: string)
    requires para != [] && forall l :: l in para ==> KindOf(p, l) != Other && Account(p, l).Some? && Account(p, l).value.0 == u
    ensures Users(p, para + [""]) == {u}
  {
    BlankIsOther(p);
    hide KindOf, Account;
    UsersConcat(p, para, [""]);
    assert para[0] in para;
  }

  lemma {:induction false} ReprintBlock(p: Patterns, lines: seq<string>, order: seq<string>, part: seq<string>, db: string)
    requires db != "" && AllReread(p, lines, order, db) && part <= order
    requires forall i, j :: 0 <= i < j < |order| ==> order[i] != order[j]
    ensures Block(p, BlockLines(p, lines, order, db), BlockUsers(p, lines, part, db), db) == Block(p, lines, part, db)
    decreases |part|
  {
    hide RecOf, Paragraph, Rereads, BlockLines, HashMap, Stripped, WellGranted;
    if part != [] {
      var init, u := part[..|part| - 1], part[|part| - 1];
      ReprintBlock(p, lines, order, init, db);
      if db in RecOf(p, lines, u).dbs {
        assert u in order;
        RereadLines(p, lines, order, db, u);
        RecordIsWellGranted(p, lines, u);
        ReprintOwn(p, u, RecOf(p, lines, u), db);
        var before := BlockUsers(p, lines, init, db);
        assert (before + [u])[..|before + [u]| - 1] == before;
      } else {
        assert BlockUsers(p, lines, part, db) == BlockUsers(p, lines, init, db);
        assert Block(p, lines, part, db) == Block(p, lines, init, db);
      }
    }
  }

  lemma LinesAreNormal(p: Patterns, lines: seq<string>, order: seq<string>, db: string, again: seq<string>)
    requires db != "" && Enumerates(order, Users(p, lines)) && AllReread(p, lines, order, db)
    requires Enumerates(again, Users(p, BlockLines(p, lines, order, db)))
    ensures multiset(Block(p, BlockLines(p, lines, order, db), again, db)) == multiset(Block(p, lines, order, db))
  {
    hide RecOf, Block, AllReread, BlockLines, Users, BlockUsers;
    var names := set u | u in order && db in RecOf(p, lines, u).dbs;
    BlockUsersOf(p, lines, order, db);
    BlockLinesName(p, lines, order, db);
    ReprintBlock(p, lines, order, order, db);
    OrderDoesNotMatter(p, BlockLines(p, lines, order, db), again, BlockUsers(p, lines, order, db), names, db);
  }

  // ----- The printed text ---------------------------------------------------

  lemma ParagraphScans(p: Patterns, user: string, r: Rec, db: string, s: string)
    requires Rereads(p, user, r, db) && s in Paragraph(p, user, r, db)
    ensures IsStatement(s)
  {
    hide CreateStmt, GrantStmt, KindOf, Account, Password, Database, EndsInSemicolon;
    var gs := GrantsFor(p, r.grants, db);
    if s in Creates(user, r) {
      var i :| 0 <= i < |r.hosts| && s == CreateStmt(user, r.hosts[i], r.password);
      assert CreateRereads(p, user, r.hosts[i], r.password);
      CreateEnds(user, r.hosts[i], r.password);
    } else {
      var i :| 0 <= i < |gs| && s == GrantStmt(p, gs[i].raw);
      GrantsForAll(p, r.grants, db);
      assert gs[i] in gs;
      assert GrantRereads(p, gs[i].raw, db);
      GrantEnds(p, gs[i].raw);
    }
  }

  predicate IsStatement(s: string) { OneLine(s) && EndsInSemicolon(s) }

  /** Statements in paragraphs, an empty line behind each. */
  ghost predicate InParagraphs(ls: seq<string>) {
    && (forall s :: s in ls ==> s == "" || IsStatement(s))
    && (ls != [] ==> |ls| >= 2 && ls[|ls| - 1] == "" && IsStatement(ls[|ls| - 2]))
  }

  lemma OneMoreParagraph(ls: seq<string>, para: seq<string>)
    requires InParagraphs(ls) && para != [] && forall s :: s in para ==> IsStatement(s)
    ensures InParagraphs(ls + (para + [""]))
  {
    hide IsStatement;
    var all := ls + (para + [""]);
    assert all[|all| - 1] == "" && all[|all| - 2] == para[|para| - 1];
    assert forall s :: s in all ==> s in ls || s in para || s == "";
  }

  lemma {:induction false} BlockLinesScan(p: Patterns, lines: seq<string>, order: seq<string>, db: string)
    requires AllReread(p, lines, order, db)
    ensures InParagraphs(BlockLines(p, lines, order, db))
    ensures Block(p, lines, order, db) == [] <==> BlockLines(p, lines, order, db) == []
  {
    hide RecOf, Paragraph, Rereads, IsStatement;
    if order != [] {
      var init, u := order[..|order| - 1], order[|order| - 1];
      BlockLinesScan(p, lines, init, db);
      if db in RecOf(p, lines, u).dbs {
        var para := Paragraph(p, u, RecOf(p, lines, u), db);
        ParagraphIsStatements(p, lines, u, db);
        hide InParagraphs;
        OneMoreParagraph(BlockLines(p, lines, init, db), para);
      } else {
        assert BlockLines(p, lines, init, db) + [] == BlockLines(p, lines, init, db);
      }
    }
  }

  lemma ParagraphIsStatements(p: Patterns, lines: seq<string>, u: string, db: string)
    requires db in RecOf(p, lines, u).dbs && Rereads(p, u, RecOf(p, lines, u), db)
    ensures var para := Paragraph(p, u, RecOf(p, lines, u), db); para != [] && forall s :: s in para ==> IsStatement(s)
  {
    hide RecOf, Paragraph, Rereads;
    var para := Paragraph(p, u, RecOf(p, lines, u), db);
    RecordIsPrintable(p, lines, u);
    ParagraphEnds(p, u, RecOf(p, lines, u), db);
    forall s | s in para
      ensures IsStatement(s)
    {
      ParagraphScans(p, u, RecOf(p, lines, u), db, s);
    }
  }

  lemma {:induction false} StatementsScan(lines: seq<string>)
    requires forall s :: s in lines ==> s == "" || IsStatement(s)
    ensures DropCRs(lines) == lines && forall s :: s in lines ==> OneLine(s)
  {
    if lines != [] {
      assert lines[0] in lines;
      StatementsScan(lines[1..]);
    }
  }

  /** Scanned, the printed text gives its statements, with an empty line between paragraphs. */
  lemma BlockScans(p: Patterns, lines: seq<string>, order: seq<string>, db: string)
    requires AllReread(p, lines, order, db) && Block(p, lines, order, db) != []
    ensures ScanLines(BlockText(p, lines, order, db)) + [""] == BlockLines(p, lines, order, db)
  {
    hide Block, BlockText, BlockLines, AllReread, Unlines, ScanLines, IsStatement;
    var text, ls := BlockText(p, lines, order, db), BlockLines(p, lines, order, db);
    BlockLinesScan(p, lines, order, db);
    BlockTextLines(p, lines, order, db);
    var front := ls[..|ls| - 1];
    assert ls == front + [""];
    UnlinesSnoc(front, "");
    ScanStatements(front, text);
  }

  lemma ScanStatements(stmts: seq<string>, text: string)
    requires stmts != [] && IsStatement(stmts[|stmts| - 1])
    requires forall s :: s in stmts ==> s == "" || IsStatement(s)
    requires Unlines(stmts) + "" + "\n" == text + "\n\n"
    ensures ScanLines(text) == stmts
  {
    hide Unlines, ScanFrom, IsStatement, DropCRs;
    var init, last := stmts[..|stmts| - 1], stmts[|stmts| - 1];
    assert stmts == init + [last];
    UnlinesSnoc(init, last);
    SameFront(Unlines(stmts), text);
    LastStatement(Unlines(init), last, text);
    ScanUnterminated("", text);
    StatementsScan(stmts);
    ScanUnlines(stmts);
  }

  lemma LastStatement(front: string, last: string, text: string)
    requires IsStatement(last) && front + last + "\n" == text + "\n"
    ensures text != "" && text[|text| - 1] == ';'
  {
    assert front + last == (front + last + "\n")[..|front + last|];
    assert text == (text + "\n")[..|text|];
    assert (front + last)[|front + last| - 1] == last[|last| - 1];
  }

  lemma SameFront(a: string, text: string)
    requires a + "" + "\n" == text + "\n\n"
    ensures a == text + "\n"
  {
    assert a == (a + "" + "\n")[..|a|];
    assert text + "\n" == (text + "\n\n")[..|text| + 1];
  }

  lemma {:induction false} SameRecords(p: Patterns, a: seq<string>, b: seq<string>, order: seq<string>, db: string)
    requires forall v :: RecOf(p, a, v) == RecOf(p, b, v)
    ensures Block(p, a, order, db) == Block(p, b, order, db)
  {
    hide RecOf, Paragraph;
    if order != [] { SameRecords(p, a, b, order[..|order| - 1], db); }
  }

  /** The scanned text says what the lines of the block say. */
  lemma TextSays(p: Patterns, lines: seq<string>, order: seq<string>, db: string)
    requires AllReread(p, lines, order, db)
    ensures var scanned, ls := ScanLines(BlockText(p, lines, order, db)), BlockLines(p, lines, order, db);
      Users(p, scanned) == Users(p, ls) && forall v :: RecOf(p, scanned, v) == RecOf(p, ls, v)
  {
    hide Block, BlockText, BlockLines, AllReread, RecOf, Users, ScanFrom, InParagraphs;
    BlockTextNonempty(p, lines, order, db);
    BlockLinesScan(p, lines, order, db);
    if Block(p, lines, order, db) != [] {
      BlockScans(p, lines, order, db);
      BlankSays(p, ScanLines(BlockText(p, lines, order, db)));
    } else {
      ScanNothing();
    }
  }

  lemma ScanNothing()
    ensures ScanLines("") == []
  {}

  lemma BlankSays(p: Patterns, lines: seq<string>)
    ensures Users(p, lines + [""]) == Users(p, lines) && forall v :: RecOf(p, lines + [""], v) == RecOf(p, lines, v)
  {
    BlankIsOther(p);
    hide RecOf, Users, KindOf, Account;
    UsersSnoc(p, lines, "");
    forall v
      ensures RecOf(p, lines + [""], v) == RecOf(p, lines, v)
    {
      RecOfSnoc(p, lines, "", v);
    }
  }

  /** Read again, the text printed for a database has for each of its users the same hosts, password and
      grants as before, and knows no other users. */
  lemma RereadBlock(p: Patterns, lines: seq<string>, order: seq<string>, db: string, v: string)
    requires db != "" && Enumerates(order, Users(p, lines)) && AllReread(p, lines, order, db)
    ensures var r := RecOf(p, lines, v);
      RecOf(p, ScanLines(BlockText(p, lines, order, db)), v) ==
      if db in r.dbs
      then Rec(r.hosts, r.password, HashMap(r.hosts, r.password), Stripped(p, GrantsFor(p, r.grants, db), db), {db})
      else NEW
  {
    hide BlockText, BlockLines, AllReread, RecOf, Users, ScanLines, HashMap, Stripped, GrantsFor;
    TextSays(p, lines, order, db);
    RereadLines(p, lines, order, db, v);
    if v !in order { UnnamedIsNew(p, lines, v); }
  }

  /** The normal form: whatever orders the maps are walked in, the text printed from the text of a
      database has the same paragraphs as the text printed from the whole dump. */
  lemma BlocksAreNormal(p: Patterns, lines: seq<string>, order: seq<string>, db: string, again: seq<string>)
    requires db != "" && Enumerates(order, Users(p, lines)) && AllReread(p, lines, order, db)
    requires Enumerates(again, Users(p, ScanLines(BlockText(p, lines, order, db))))
    ensures multiset(Block(p, ScanLines(BlockText(p, lines, order, db)), again, db)) == multiset(Block(p, lines, order, db))
  {
    hide BlockText, BlockLines, AllReread, RecOf, Users, ScanLines, Block;
    TextSays(p, lines, order, db);
    LinesAreNormal(p, lines, order, db, again);
    SameRecords(p, ScanLines(BlockText(p, lines, order, db)), BlockLines(p, lines, order, db), again, db);
  }
}
