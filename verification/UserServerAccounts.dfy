/** Account lines as servers print them, and what becomes of their hash in the blocks. */
module UserServerAccounts {
  import opened Text
  import opened SqlLiteral
  import opened UserRecords
  import opened UserBlocks
  import opened UserPatterns
  import opened UserPatternLaws
  import opened UserGrantLaws
  import opened UserServerGrants

  // ----- Character classes --------------------------------------------------

  /** The characters of the patterns by their codes: `\s`, those of names without quotes, and quotes. */
  lemma CharacterClasses(c: char)
    ensures var n := c as int;
      && (IsBlank(c) <==> n in {9, 10, 12, 13, 32})
      && (IsWord(c) <==> 48 <= n <= 57 || 65 <= n <= 90 || 97 <= n <= 122 || n == 36 || n == 95 || 128 <= n <= 65535)
      && (IsQuote(c) <==> n in {34, 39, 96})
  {}

  /** A keyword in capital or small letters. */
  predicate AnyCase(w: string, x: string) {
    |x| == |w| && forall i :: 0 <= i < |w| ==> x[i] == w[i] || ('A' <= w[i] <= 'Z' && x[i] as int == w[i] as int + 32)
  }

  lemma {:induction false} WordAnyCase(w: string, x: string, rest: string)
    requires AnyCase(w, x)
    ensures WordHere(w, x + rest) == Some(rest)
  {
    if w == "" {
      assert x + rest == rest;
    } else {
      assert (x + rest)[0] == x[0] && (x + rest)[1..] == x[1..] + rest;
      WordAnyCase(w[1..], x[1..], rest);
    }
  }

  // ----- Any case, any blanks -----------------------------------------------

  predicate BlankRun(g: string) { forall i :: 0 <= i < |g| ==> IsBlank(g[i]) }

  lemma {:induction false} RunIsSkipped(g: string, rest: string)
    requires BlankRun(g) && rest != "" && !IsBlank(rest[0])
    ensures SkipBlanks(g + rest) == rest
  {
    if g == "" {
      assert g + rest == rest;
    } else {
      assert (g + rest)[1..] == g[1..] + rest;
      RunIsSkipped(g[1..], rest);
    }
  }

  lemma AfterAnyCase(w: string, x: string, g: string, rest: string)
    requires AnyCase(w, x) && BlankRun(g) && g != "" && rest != "" && !IsBlank(rest[0])
    ensures After(w, x + (g + rest)) == Some(rest)
  {
    hide WordHere, SkipBlanks, AnyCase;
    WordAnyCase(w, x, g + rest);
    RunIsSkipped(g, rest);
    assert (g + rest)[0] == g[0];
  }

  /** A password clause in any case, with any blanks between its words, and in quotes of any kind. */
  datatype ClauseForm = ClauseForm(x: string, g: string, y: string, h: string, z: string, k: string, q: char)

  predicate ValidClause(c: ClauseForm) {
    && AnyCase("IDENTIFIED", c.x) && AnyCase("BY", c.y) && AnyCase("PASSWORD", c.z) && IsQuote(c.q)
    && BlankRun(c.g) && BlankRun(c.h) && BlankRun(c.k) && c.g != "" && c.h != "" && c.k != ""
  }

  function FormText(c: ClauseForm, hash: string, rest: string): string {
    c.x + (c.g + (c.y + (c.h + (c.z + (c.k + ([c.q] + hash + [c.q] + rest))))))
  }

  lemma WordBegins(w: string, x: string, rest: string)
    requires AnyCase(w, x) && w in {"IDENTIFIED", "BY", "PASSWORD", "ON"}
    ensures var t := x + rest; t != "" && !IsBlank(t[0])
  {
    assert (x + rest)[0] == x[0];
  }

  /** Such a clause is read as its hash, and taken out with all blanks before it. */
  lemma ClauseAnyhow(c: ClauseForm, hash: string, rest: string, before: string)
    requires ValidClause(c) && c.q !in hash && BlankRun(before)
    ensures ClauseHere(FormText(c, hash, rest)) == Some((hash, rest)) && FindClause(FormText(c, hash, rest)) == Some(hash)
    ensures Strip(before + FormText(c, hash, rest)) == Strip(rest)
  {
    var quoted := [c.q] + hash + [c.q] + rest;
    var password := c.z + (c.k + quoted);
    var behind := c.y + (c.h + password);
    var all := c.x + (c.g + behind);
    WordBegins("PASSWORD", c.z, c.k + quoted);
    WordBegins("BY", c.y, c.h + password);
    WordBegins("IDENTIFIED", c.x, c.g + behind);
    hide ClauseHere, After, ReadQuote, Strip, AnyCase, SkipBlanks;
    QuoteIsRead(c.q, hash, rest);
    assert quoted[0] == c.q;
    AfterAnyCase("PASSWORD", c.z, c.k, quoted);
    AfterAnyCase("BY", c.y, c.h, password);
    AfterAnyCase("IDENTIFIED", c.x, c.g, behind);
    ClauseSteps(all, behind, password, quoted, (hash, rest));
    RunIsSkipped(before, all);
    StripStep(before + all);
  }

  /** The account is found with any blanks around its `@`. */
  lemma AccountAnyhow(user: Name, g: string, h: string, host: Name, rest: string)
    requires ValidName(user) && ValidName(host) && BlankRun(g) && BlankRun(h) && Ends(host, rest)
    ensures FindUserHost(NameText(user, g + ("@" + (h + NameText(host, rest))))) == Some((user.s, host.s))
  {
    hide *;
    var second := NameText(host, rest);
    var at := "@" + (h + second);
    AtBegins(h + second);
    EndsBefore(user, g, at);
    NameStarts(host, rest);
    NameIsRead(user, g + at);
    NameIsRead(host, rest);
    RunIsSkipped(g, at);
    RunIsSkipped(h, second);
    AccountSteps(NameText(user, g + at), user.s, g + at, at, second, host.s, rest);
  }

  lemma AtBegins(rest: string)
    ensures var at := "@" + rest; at != "" && at[0] == '@' && !IsBlank('@') && !IsWord('@') && at[1..] == rest
  {}

  lemma EndsBefore(n: Name, g: string, rest: string)
    requires BlankRun(g) && rest != "" && !IsWord(rest[0])
    ensures Ends(n, g + rest)
  {
    if g == "" { assert g + rest == rest; } else { assert (g + rest)[0] == g[0] && !IsWord(g[0]); }
  }

  lemma AccountSteps(t: string, user: string, behind: string, at: string, second: string, host: string, rest: string)
    requires ReadName(t) == Some((user, behind)) && SkipBlanks(behind) == at && at != "" && at[0] == '@'
    requires SkipBlanks(at[1..]) == second && ReadName(second) == Some((host, rest))
    ensures FindUserHost(t) == Some((user, host))
  {
    hide ReadName, SkipBlanks;
  }

  /** The database is found behind `ON` in any case, with any blanks before it and around its dot. */
  lemma DatabaseAnyhow(x: string, g: string, db: Name, h: string, k: string, rest: string)
    requires AnyCase("ON", x) && BlankRun(g) && g != "" && ValidName(db) && BlankRun(h) && BlankRun(k)
    ensures FindOnDb(x + (g + NameText(db, h + ("." + (k + ("*" + rest)))))) == Some(db.s)
  {
    hide *;
    var star := "*" + rest;
    var dot := "." + (k + star);
    DotBegins(k, rest);
    EndsBefore(db, h, dot);
    NameStarts(db, h + dot);
    NameIsRead(db, h + dot);
    RunIsSkipped(h, dot);
    RunIsSkipped(k, star);
    AfterAnyCase("ON", x, g, NameText(db, h + dot));
    DatabaseSteps(x + (g + NameText(db, h + dot)), NameText(db, h + dot), db.s, h + dot, dot, star);
  }

  lemma DotBegins(k: string, rest: string)
    ensures var star := "*" + rest; var dot := "." + (k + star);
      && star != "" && star[0] == '*' && !IsBlank(star[0])
      && dot != "" && dot[0] == '.' && !IsBlank(dot[0]) && !IsWord(dot[0]) && dot[1..] == k + star
  {}

  lemma DatabaseSteps(t: string, o: string, db: string, behind: string, dot: string, star: string)
    requires After("ON", t) == Some(o) && ReadName(o) == Some((db, behind)) && SkipBlanks(behind) == dot
    requires dot != "" && dot[0] == '.' && SkipBlanks(dot[1..]) == star && star != "" && star[0] == '*'
    ensures FindOnDb(t) == Some(db)
  {
    hide After, ReadName, SkipBlanks;
  }

  /** The kind of a line is found in any case. */
  lemma KindAnyCase(x: string, rest: string)
    ensures AnyCase("CREATE USER ", x) ==> KindHere(x + rest) == CreateUser
    ensures AnyCase("GRANT ", x) ==> KindHere(x + rest) == Grant
  {
    hide WordHere;
    if AnyCase("CREATE USER ", x) { WordAnyCase("CREATE USER ", x, rest); }
    if AnyCase("GRANT ", x) {
      WordAnyCase("GRANT ", x, rest);
      NoCreate(x, rest);
    }
  }

  lemma NoCreate(x: string, rest: string)
    requires AnyCase("GRANT ", x)
    ensures WordHere("CREATE USER ", x + rest).None?
  {
    assert (x + rest)[0] == x[0] && (x[0] == 'G' || x[0] == 'g');
  }

  // ----- Account lines ------------------------------------------------------

  /** `CREATE USER`, with or without `IF NOT EXISTS`, in capital or small letters. */
  predicate Keywords(x: string) { AnyCase("CREATE USER ", x) || AnyCase("CREATE USER IF NOT EXISTS ", x) }

  /** What is needed of the keywords. */
  predicate Opens(x: string) {
    && WordHere("CREATE USER ", x).Some? && Quoteless(x) && '@' !in x
    && |x| >= 2 && !IsSpace(x[0]) && x[|x| - 1] == ' ' && (Folds(x[|x| - 2], 'R') || Folds(x[|x| - 2], 'S'))
  }

  lemma KeywordsOpen(x: string)
    requires Keywords(x)
    ensures Opens(x)
  {
    if AnyCase("CREATE USER ", x) { CreateOpens(x); } else { CreateIfOpens(x); }
  }

  lemma CreateOpens(x: string)
    requires AnyCase("CREATE USER ", x)
    ensures Opens(x)
  {
    WordAnyCase("CREATE USER ", x, "");
    assert x + "" == x;
    QuietWord("CREATE USER ", x);
    assert x[0] == 'C' || x[0] == 'c';
    assert x[10] == 'R' || x[10] == 'r';
    assert x[11] == ' ';
  }

  lemma CreateIfOpens(x: string)
    requires AnyCase("CREATE USER IF NOT EXISTS ", x)
    ensures Opens(x)
  {
    var w := "CREATE USER IF NOT EXISTS ";
    assert w[..12] == "CREATE USER ";
    assert AnyCase(w[..12], x[..12]) && x[..12] + x[12..] == x;
    WordAnyCase("CREATE USER ", x[..12], x[12..]);
    QuietWord(w, x);
    assert x[0] == 'C' || x[0] == 'c';
    assert x[24] == 'S' || x[24] == 's';
    assert x[25] == ' ';
  }

  lemma QuietWord(w: string, x: string)
    requires AnyCase(w, x) && forall i :: 0 <= i < |w| ==> 'A' <= w[i] <= 'Z' || w[i] == ' '
    ensures Quoteless(x) && '@' !in x
  {}

  function AccountLine(keywords: string, user: Name, host: Name, tail: string): string {
    keywords + NameText(user, "@" + NameText(host, tail))
  }

  lemma AccountLineEnds(keywords: string, user: Name, host: Name, tail: string)
    requires Opens(keywords) && ValidName(host) && (tail == "" || !IsSpace(tail[|tail| - 1]))
    ensures var l := AccountLine(keywords, user, host, tail); l != "" && TrimSpace(l) == l
  {
    hide TrimSpace, WordHere;
    var h, l := NameText(host, tail), AccountLine(keywords, user, host, tail);
    assert h != "" && !IsSpace(h[|h| - 1]) by { HostEnds(host, tail); }
    hide ValidName, NameText;
    EndsWith(user, "@" + h, h);
    assert l[0] == keywords[0];
    var t := NameText(user, "@" + h);
    assert l[|l| - 1] == t[|t| - 1];
    TrimSame(l);
  }

  lemma HostEnds(n: Name, tail: string)
    requires ValidName(n) && (tail == "" || !IsSpace(tail[|tail| - 1]))
    ensures var h := NameText(n, tail); h != "" && !IsSpace(h[|h| - 1])
  {
    NameEnds(n);
    NameAppended(n, "", tail);
    hide NameText, ValidName;
    assert "" + tail == tail;
    assert tail == "" ==> NameText(n, "") + tail == NameText(n, "");
  }

  /** A line creating an account, with the names in quotes of any kind or bare, is taken for one and read as that account. */
  lemma ServerAccountIsRead(keywords: string, user: Name, host: Name, tail: string)
    requires Keywords(keywords) && ValidName(user) && ValidName(host) && Ends(host, tail)
    requires tail == "" || !IsSpace(tail[|tail| - 1])
    ensures var l := AccountLine(keywords, user, host, tail);
      KindOf(REGEXES, l) == CreateUser && Account(REGEXES, l) == Some((user.s, host.s))
  {
    KeywordsOpen(keywords);
    AccountLineEnds(keywords, user, host, tail);
    AccountIsFound(keywords, user, host, tail);
    NamesTrimmed(user, host);
    hide TrimSpace, FindUserHost, NameText, ValidName, Keywords, WordHere;
    var l := AccountLine(keywords, user, host, tail);
    assert WordHere("CREATE USER ", l).Some? by { WordGrows("CREATE USER ", keywords, NameText(user, "@" + NameText(host, tail))); }
  }

  lemma NamesTrimmed(user: Name, host: Name)
    requires ValidName(user) && ValidName(host)
    ensures TrimSpace(user.s) == user.s && TrimSpace(host.s) == host.s && user.s != "" && host.s != ""
  {
    TrimSame(user.s); TrimSame(host.s);
  }

  lemma AccountIsFound(keywords: string, user: Name, host: Name, tail: string)
    requires Opens(keywords) && ValidName(user) && ValidName(host) && Ends(host, tail)
    ensures FindUserHost(AccountLine(keywords, user, host, tail)) == Some((user.s, host.s))
  {
    hide FindUserHost, NameText, ValidName, Quoteless, WordHere, ReadName;
    var second := NameText(host, tail);
    var t := NameText(user, "@" + second);
    NameStarts(user, "@" + second);
    PassToName(keywords, t);
    assert Ends(user, "@" + second);
    NameIsRead(user, "@" + second);
    NameIsRead(host, tail);
    NameStarts(host, tail);
    AccountHere(t, user.s, second, host.s, tail);
  }

  // ----- The hash -----------------------------------------------------------

  lemma KeywordsUnopened(keywords: string, rest: string)
    requires Opens(keywords) && Unopened(rest)
    ensures Unopened(keywords + rest)
  {
    var front := keywords[..|keywords| - 1];
    assert keywords == front + " " && Quoteless(front) && Joins(front[|front| - 1], [' '] + rest);
    hide Unopened, Quoteless, Joins, WordHere;
    QuotelessIsUnopened(front);
    UnopenedBehind(' ', rest);
    UnopenedJoin(front, [' '] + rest);
    assert front + ([' '] + rest) == keywords + rest;
  }

  lemma AccountUnopenedUpTo(keywords: string, user: Name, rest: string)
    requires Opens(keywords) && ValidName(user) && Unopened(user.s) && Unopened(rest)
    ensures Unopened(keywords + NameText(user, "@" + rest))
  {
    hide Unopened, ValidName, NameText, Opens;
    UnopenedBehind('@', rest);
    NameUnopened(user, "@" + rest);
    KeywordsUnopened(keywords, NameText(user, "@" + rest));
  }

  /** And if a password clause follows, in quotes of any kind, its hash is read as the password. */
  lemma ServerHashIsRead(keywords: string, user: Name, host: Name, q: char, hash: string, tail: string)
    requires Keywords(keywords) && ValidName(user) && ValidName(host) && Unopened(user.s) && Unopened(host.s)
    requires IsQuote(q) && q !in hash && Trimmed(hash) && (tail == "" || !IsSpace(tail[|tail| - 1]))
    ensures Password(REGEXES, AccountLine(keywords, user, host, Clause(q, hash, tail))) == hash
  {
    KeywordsOpen(keywords);
    ClauseEndsLine(q, hash, tail);
    hide *;
    var k, l := Clause(q, hash, tail), AccountLine(keywords, user, host, Clause(q, hash, tail));
    AccountLineEnds(keywords, user, host, k);
    HashIsFound(keywords, user, host, q, hash, tail);
    TrimSame(hash);
    PasswordSays(l, hash);
  }

  lemma ClauseEndsLine(q: char, hash: string, tail: string)
    requires IsQuote(q) && (tail == "" || !IsSpace(tail[|tail| - 1]))
    ensures var k := Clause(q, hash, tail); k != "" && !IsSpace(k[|k| - 1])
  {
    var k := Clause(q, hash, tail);
    assert k[|k| - 1] == if tail == "" then q else tail[|tail| - 1];
  }

  lemma HashIsFound(keywords: string, user: Name, host: Name, q: char, hash: string, tail: string)
    requires Opens(keywords) && ValidName(user) && ValidName(host) && Unopened(user.s) && Unopened(host.s)
    requires IsQuote(q) && q !in hash
    ensures FindClause(AccountLine(keywords, user, host, Clause(q, hash, tail))) == Some(hash)
  {
    hide *;
    AccountAppended(keywords, user, host, Clause(q, hash, tail));
    AccountIsUnopened(keywords, user, host);
    ClauseIsFoundBehind(AccountLine(keywords, user, host, ""), q, hash, tail);
  }

  lemma AccountAppended(keywords: string, user: Name, host: Name, tail: string)
    ensures AccountLine(keywords, user, host, tail) == AccountLine(keywords, user, host, "") + tail
  {
    var h := NameText(host, "");
    NameAppended(host, "", tail);
    assert "" + tail == tail;
    hide NameText;
    NameAppended(user, "@" + h, tail);
    Assoc("@", h, tail);
    Assoc(keywords, NameText(user, "@" + h), tail);
  }

  lemma AccountIsUnopened(keywords: string, user: Name, host: Name)
    requires Opens(keywords) && ValidName(user) && ValidName(host) && Unopened(user.s) && Unopened(host.s)
    ensures var a := AccountLine(keywords, user, host, ""); Unopened(a) && a != "" && !IsBlank(a[|a| - 1])
  {
    QuotelessIsUnopened("");
    NameEnds(host);
    var h := NameText(host, "");
    hide Unopened, ValidName, NameText, Opens, Quoteless;
    NameUnopened(host, "");
    AccountUnopenedUpTo(keywords, user, h);
    EndsWith(user, "@" + h, h);
    var t, a := NameText(user, "@" + h), AccountLine(keywords, user, host, "");
    assert a[|a| - 1] == t[|t| - 1];
  }

  /** Without a clause in the host and what follows there is no password. */
  lemma NoHashIsRead(keywords: string, user: Name, host: Name, tail: string)
    requires Keywords(keywords) && ValidName(user) && ValidName(host) && Unopened(user.s)
    requires Clauseless(NameText(host, tail)) && (tail == "" || !IsSpace(tail[|tail| - 1]))
    ensures Password(REGEXES, AccountLine(keywords, user, host, tail)) == ""
  {
    hide *;
    KeywordsOpen(keywords);
    AccountLineEnds(keywords, user, host, tail);
    AccountIsClauseless(keywords, user, host, tail);
    NoClauseFound(AccountLine(keywords, user, host, tail));
    NoPassword(AccountLine(keywords, user, host, tail));
  }

  lemma NoPassword(l: string)
    requires TrimSpace(l) == l && FindClause(l) == None
    ensures Password(REGEXES, l) == ""
  {
    hide TrimSpace, FindClause;
  }

  lemma AccountIsClauseless(keywords: string, user: Name, host: Name, tail: string)
    requires Opens(keywords) && ValidName(user) && Unopened(user.s) && Clauseless(NameText(host, tail))
    ensures Clauseless(AccountLine(keywords, user, host, tail))
  {
    QuotelessIsUnopened("");
    var h := NameText(host, tail);
    assert "@" + "" == "@";
    hide Unopened, ValidName, NameText, Opens, Clauseless, Quoteless;
    NameAppended(user, "@", h);
    AccountUnopenedUpTo(keywords, user, "");
    var t, a := NameText(user, "@"), keywords + NameText(user, "@");
    EndsWith(user, "@", "@");
    assert a[|a| - 1] == t[|t| - 1];
    assert Joins('@', h);
    ClauselessBehind(a, h);
    Assoc(keywords, t, h);
  }

  // ----- In the blocks ------------------------------------------------------

  /** The line is about the user, and the first of those to give a hash. */
  ghost predicate GivesHash(p: Patterns, lines: seq<string>, i: nat, user: string, hash: string) {
    && i < |lines| && hash != "" && KindOf(p, lines[i]) != Other && Password(p, lines[i]) == hash
    && Account(p, lines[i]).Some? && Account(p, lines[i]).value.0 == user
    && forall j :: 0 <= j < i && KindOf(p, lines[j]) != Other && Account(p, lines[j]).Some? && Account(p, lines[j]).value.0 == user ==>
         Password(p, lines[j]) == ""
  }

  lemma {:induction false} FirstHashIs(p: Patterns, lines: seq<string>, i: nat, user: string, hash: string)
    requires GivesHash(p, lines, i, user, hash)
    ensures FirstHash(p, lines, user) == hash
    decreases i
  {
    hide KindOf, Account, Password;
    if i > 0 {
      var rest := lines[1..];
      assert rest[i - 1] == lines[i];
      forall j | 0 <= j < i - 1 && KindOf(p, rest[j]) != Other && Account(p, rest[j]).Some? && Account(p, rest[j]).value.0 == user
        ensures Password(p, rest[j]) == ""
      {
        assert rest[j] == lines[j + 1];
      }
      FirstHashIs(p, rest, i - 1, user, hash);
    }
  }

  lemma {:induction false} GrantIsOf(p: Patterns, lines: seq<string>, k: nat, user: string)
    requires k < |lines| && KindOf(p, lines[k]) == Grant && Account(p, lines[k]).Some? && Account(p, lines[k]).value.0 == user
    ensures GrantLine(lines[k], Database(p, lines[k])) in GrantsOf(p, lines, user)
  {
    hide KindOf, Account, Database;
    if k > 0 {
      assert lines[1..][k - 1] == lines[k];
      GrantIsOf(p, lines[1..], k - 1, user);
    }
  }

  lemma {:induction false} JoinHas(parts: seq<string>, sep: string, s: string)
    requires s in parts
    ensures Contains(Join(parts, sep), s)
  {
    if |parts| == 1 {
      assert OccursAt(s, s, 0);
    } else {
      var init, last := parts[..|parts| - 1], parts[|parts| - 1];
      var j := Join(parts, sep);
      if s == last {
        assert j[|j| - |s|..] == s;
        assert OccursAt(j, s, |j| - |s|);
      } else {
        JoinHas(init, sep, s);
        var i :| OccursAt(Join(init, sep), s, i);
        assert j[i..i + |s|] == Join(init, sep)[i..i + |s|];
        assert OccursAt(j, s, i);
      }
    }
  }

  lemma ContainsTrans(s: string, t: string, u: string)
    requires Contains(s, t) && Contains(t, u)
    ensures Contains(s, u)
  {
    var i :| OccursAt(s, t, i);
    var k :| OccursAt(t, u, k);
    SliceOfSlice(s, i, i + |t|, k, k + |u|);
    assert OccursAt(s, u, i + k);
  }

  lemma {:induction false} BlockHas(p: Patterns, lines: seq<string>, order: seq<string>, db: string, u: string)
    requires u in order && db in RecOf(p, lines, u).dbs
    ensures Paragraph(p, u, RecOf(p, lines, u), db) in Block(p, lines, order, db)
  {
    hide RecOf, Paragraph;
    if order[|order| - 1] != u { BlockHas(p, lines, order[..|order| - 1], db, u); }
  }

  lemma BlockTextHas(p: Patterns, lines: seq<string>, order: seq<string>, db: string, para: seq<string>, stmt: string)
    requires para in Block(p, lines, order, db) && stmt in para
    ensures Contains(BlockText(p, lines, order, db), stmt)
  {
    hide Block, Join, Contains;
    var paras := Block(p, lines, order, db);
    var i :| 0 <= i < |paras| && paras[i] == para;
    assert Texts(paras)[i] == Join(para, "\n");
    JoinHas(Texts(paras), "\n\n", Join(para, "\n"));
    JoinHas(para, "\n", stmt);
    ContainsTrans(BlockText(p, lines, order, db), Join(para, "\n"), stmt);
  }

  /** In the text of a database on which the user has a grant, every account of the user is created with the first hash the
      dump gives for the user, in an account line or in a grant; and the grant is there, without its clause. */
  lemma HashIsPrinted(p: Patterns, lines: seq<string>, order: seq<string>, i: nat, k: nat, user: string, hash: string, host: string)
    requires Enumerates(order, Users(p, lines)) && GivesHash(p, lines, i, user, hash) && NamedAt(p, lines, user, host)
    requires k < |lines| && KindOf(p, lines[k]) == Grant && Database(p, lines[k]) != ""
    requires Account(p, lines[k]).Some? && Account(p, lines[k]).value.0 == user
    ensures var text := BlockText(p, lines, order, Database(p, lines[k]));
      Contains(text, CreateStmt(user, host, hash)) && Contains(text, GrantStmt(p, lines[k]))
  {
    hide KindOf, Account, Password, Database, RecOf, Contains, BlockText, Block, NamedAt, FirstHash, GrantsOf, CreateStmt, GrantStmt;
    var db, g := Database(p, lines[k]), GrantLine(lines[k], Database(p, lines[k]));
    var r := RecOf(p, lines, user);
    RecordSays(p, lines, user);
    FirstHashIs(p, lines, i, user, hash);
    GrantIsOf(p, lines, k, user);
    assert g in r.grants && db in r.dbs;
    NamedIsUser(p, lines, user, host);
    BlockHas(p, lines, order, db, user);
    var para := Paragraph(p, user, r, db);
    CreateIsThere(p, user, r, db, host);
    BlockTextHas(p, lines, order, db, para, CreateStmt(user, host, hash));
    if GrantStmt(p, lines[k]) == "" {
      NothingIsThere(BlockText(p, lines, order, db));
    } else {
      GrantIsThere(p, user, r, db, g);
      BlockTextHas(p, lines, order, db, para, GrantStmt(p, lines[k]));
    }
  }

  lemma NothingIsThere(text: string)
    ensures Contains(text, "")
  {
    assert text[0..0] == "";
    assert OccursAt(text, "", 0);
  }

  lemma CreateIsThere(p: Patterns, user: string, r: Rec, db: string, host: string)
    requires host in r.hosts
    ensures CreateStmt(user, host, r.password) in Paragraph(p, user, r, db)
  {
    hide CreateStmt, GrantStmt;
    var i :| 0 <= i < |r.hosts| && r.hosts[i] == host;
    assert Creates(user, r)[i] == CreateStmt(user, host, r.password);
    assert Paragraph(p, user, r, db)[i] == Creates(user, r)[i];
  }

  lemma GrantIsThere(p: Patterns, user: string, r: Rec, db: string, g: GrantLine)
    requires g in r.grants && g.db == db && GrantStmt(p, g.raw) != ""
    ensures GrantStmt(p, g.raw) in Paragraph(p, user, r, db)
  {
    hide CreateStmt, GrantStmt;
    GrantsForAll(p, r.grants, db);
    var gs := GrantsFor(p, r.grants, db);
    var i :| 0 <= i < |gs| && gs[i] == g;
    assert GrantStmts(p, gs)[i] == GrantStmt(p, g.raw);
    assert Paragraph(p, user, r, db)[|Creates(user, r)| + i] == GrantStmts(p, gs)[i];
  }

  /** The statement as it is printed, for names and a hash that need no escaping. */
  lemma CreateSays(user: string, host: string, hash: string)
    requires Plain(user) && Plain(host) && Plain(hash) && hash != ""
    ensures CreateStmt(user, host, hash) ==
      "CREATE USER IF NOT EXISTS '" + user + "'@'" + host + "' IDENTIFIED BY PASSWORD '" + hash + "';"
    ensures CreateStmt(user, host, "") == "CREATE USER IF NOT EXISTS '" + user + "'@'" + host + "';"
  {
    EscapePlain(user); EscapePlain(host); EscapePlain(hash);
    CreatePieces();
    hide EscapeSQL;
    WithHash(CREATE, "'", user, "@", host, IDENTIFIED, hash, ";");
    WithoutHash(CREATE, "'", user, "@", host, ";");
  }

  lemma CreatePieces()
    ensures CREATE + "'" == "CREATE USER IF NOT EXISTS '" && "'" + "@" + "'" == "'@'"
    ensures "'" + IDENTIFIED + "'" == "' IDENTIFIED BY PASSWORD '" && "'" + ";" == "';"
  {}

  lemma WithHash(a: string, q: string, u: string, at: string, h: string, id: string, p: string, e: string)
    ensures a + (q + u + q + (at + (q + h + q + (id + (q + p + q + e))))) == (a + q) + u + (q + at + q) + h + (q + id + q) + p + (q + e)
  {}

  lemma WithoutHash(a: string, q: string, u: string, at: string, h: string, e: string)
    ensures a + (q + u + q + (at + (q + h + q + e))) == (a + q) + u + (q + at + q) + h + (q + e)
  {}

  /** With the program's own patterns: an account line with a hash and a grant, as a server prints them, give a block that
      creates the account with that hash and grants what was granted. */
  lemma ServerDumpIsPrinted(keywords: string, user: Name, host: Name, q: char, hash: string, end: string, f: Form, tail: string)
    requires Keywords(keywords) && ValidName(user) && ValidName(host) && Unopened(user.s) && Unopened(host.s)
    requires IsQuote(q) && q !in hash && Trimmed(hash) && hash != "" && (end == "" || !IsSpace(end[|end| - 1]))
    requires Fits(f, tail) && f.user.s == user.s && f.db.s != "*"
    ensures var lines := [AccountLine(keywords, user, host, Clause(q, hash, end)), GrantText(f, tail)];
      var text := BlockText(REGEXES, lines, [user.s], f.db.s);
      Contains(text, CreateStmt(user.s, host.s, hash)) && Contains(text, GrantStmt(REGEXES, GrantText(f, tail)))
  {
    ClauseEndsLine(q, hash, end);
    ClauseStarts(host, q, hash, end);
    DatabaseNamed(f, tail);
    hide *;
    var account, grant := AccountLine(keywords, user, host, Clause(q, hash, end)), GrantText(f, tail);
    ServerAccountIsRead(keywords, user, host, Clause(q, hash, end));
    ServerHashIsRead(keywords, user, host, q, hash, end);
    ServerGrantIsRead(f, tail);
    TwoLines(REGEXES, account, grant, user.s, hash, host.s, f.db.s);
    HashIsPrinted(REGEXES, [account, grant], [user.s], 0, 1, user.s, hash, host.s);
  }

  lemma ClauseStarts(host: Name, q: char, hash: string, end: string)
    ensures Ends(host, Clause(q, hash, end))
  {
    assert Clause(q, hash, end)[0] == ' ';
  }

  lemma DatabaseNamed(f: Form, tail: string)
    requires Fits(f, tail)
    ensures f.db.s != ""
  {
    hide NoAt, Behind, Quoteless, Trimmed;
  }

  lemma TwoLines(p: Patterns, account: string, grant: string, user: string, hash: string, host: string, db: string)
    requires KindOf(p, account) == CreateUser && Account(p, account) == Some((user, host)) && Password(p, account) == hash && hash != ""
    requires KindOf(p, grant) == Grant && Account(p, grant).Some? && Account(p, grant).value.0 == user
    ensures GivesHash(p, [account, grant], 0, user, hash) && NamedAt(p, [account, grant], user, host)
    ensures Enumerates([user], Users(p, [account, grant]))
  {
    hide KindOf, Account, Password;
    var lines := [account, grant];
    assert lines[0] == account && Concerns(p, lines[0], user);
    assert forall l :: l in lines <==> l == account || l == grant;
  }
}
