/** Grants as servers print them and as they can be written: names in quotes of any kind or without, with and without a
    password clause. */
module UserServerGrants {
  import opened Text
  import opened UserRecords
  import opened UserPatterns
  import opened UserPatternLaws
  import opened UserGrantLaws

  // ----- Names --------------------------------------------------------------

  datatype Name = InQuotes(q: char, s: string) | Bare(s: string)

  function NameText(n: Name, rest: string): string {
    match n
    case InQuotes(q, s) => [q] + s + [q] + rest
    case Bare(s) => s + rest
  }

  predicate AllWord(s: string) { forall i :: 0 <= i < |s| ==> IsWord(s[i]) }

  predicate ValidName(n: Name) {
    n.s != "" && Trimmed(n.s) && if n.InQuotes? then IsQuote(n.q) && n.q !in n.s else AllWord(n.s)
  }

  /** A name without quotes ends before `rest`. */
  predicate Ends(n: Name, rest: string) { n.InQuotes? || rest == "" || !IsWord(rest[0]) }

  lemma {:induction false} WordIsRead(s: string, rest: string)
    requires AllWord(s) && (rest == "" || !IsWord(rest[0]))
    ensures WordOf(s + rest) == (s, rest)
  {
    if s == "" {
      assert s + rest == rest;
    } else {
      assert (s + rest)[1..] == s[1..] + rest;
      WordIsRead(s[1..], rest);
      assert [s[0]] + s[1..] == s;
    }
  }

  lemma NameIsRead(n: Name, rest: string)
    requires ValidName(n) && Ends(n, rest)
    ensures ReadName(NameText(n, rest)) == Some((n.s, rest))
  {
    hide WordOf, ReadQuote, Trimmed;
    match n
    case InQuotes(q, s) =>
      hide ReadName;
      NameInQuotes(q, s, rest);
    case Bare(s) =>
      WordIsRead(s, rest);
      assert (s + rest)[0] == s[0];
  }

  lemma NameStarts(n: Name, rest: string)
    requires ValidName(n)
    ensures var t := NameText(n, rest); t != "" && !IsBlank(t[0]) && t[0] != '@' && t[0] != '.'
  {
    if n.Bare? { assert (n.s + rest)[0] == n.s[0]; }
  }

  // ----- Grants -------------------------------------------------------------

  datatype Form = Form(privs: string, db: Name, user: Name, host: Name)

  function AccountOf(f: Form, tail: string): string { NameText(f.user, "@" + NameText(f.host, tail)) }

  function Behind(f: Form, tail: string): string { ".* TO " + AccountOf(f, tail) }

  function GrantText(f: Form, tail: string): string { ("GRANT " + f.privs + " ON") + (" " + NameText(f.db, Behind(f, tail))) }

  /** Behind the next `q` there is no `@`. */
  predicate NoAt(q: char, t: string) {
    var r := UpTo(q, t);
    r.Some? ==> var at := SkipBlanks(r.value.1); at == "" || at[0] != '@'
  }

  /** Privileges without quotes, `@` or dots, and names that are read as they stand: the database has neither quotes nor
      `@` in it, and from its closing quote on no account begins. */
  predicate Fits(f: Form, tail: string) {
    && Quoteless(f.privs) && '@' !in f.privs && '.' !in f.privs
    && ValidName(f.db) && ValidName(f.user) && ValidName(f.host) && Ends(f.host, tail)
    && Quoteless(f.db.s) && '@' !in f.db.s
    && (f.db.InQuotes? ==> NoAt(f.db.q, Behind(f, tail)))
    && (tail == "" || !IsSpace(tail[|tail| - 1]))
  }

  lemma QuietJoin(a: string, b: string)
    requires Quoteless(a) && Quoteless(b)
    ensures Quoteless(a + b) && ('@' !in a && '@' !in b ==> '@' !in a + b)
  {}

  lemma GrantWords()
    ensures Quoteless(".* TO") && Quoteless(".* TO ") && '@' !in ".* TO "
    ensures Quoteless("GRANT ") && '@' !in "GRANT " && Quoteless(" ON") && '@' !in " ON" && Quoteless(" ON ") && '@' !in " ON "
  {}

  // ----- The account --------------------------------------------------------

  /** No account begins in text without quotes and `@` that ends in a blank. */
  lemma NoAccountYet(x: string, rest: string)
    requires x != "" && x[|x| - 1] == ' ' && Quoteless(x) && '@' !in x
    requires rest != "" && !IsBlank(rest[0]) && rest[0] != '@'
    ensures UserHostHere(x + rest).None?
  {
    hide WordOf, SkipBlanks, ReadQuote;
    var t, front := x + rest, x[..|x| - 1];
    assert t[0] == x[0] && !IsQuote(t[0]);
    if IsWord(t[0]) {
      assert t == front + (" " + rest);
      WordEnds(front, " " + rest);
      WordRest(front);
      var left := WordOf(front).1 + " ";
      assert WordOf(front).1 + (" " + rest) == left + rest;
      BlanksEnd(left, rest);
      assert '@' !in left;
      assert forall c :: c in SkipBlanks(left) ==> c in left;
      NoAtBehind(t, WordOf(front).0, left + rest);
    }
  }

  lemma {:induction false} PassToName(x: string, rest: string)
    requires x == "" || x[|x| - 1] == ' '
    requires Quoteless(x) && '@' !in x && rest != "" && !IsBlank(rest[0]) && rest[0] != '@'
    ensures FindUserHost(x + rest) == FindUserHost(rest)
  {
    hide FindUserHost, UserHostHere;
    if x == "" {
      assert x + rest == rest;
    } else {
      NoAccountYet(x, rest);
      assert (x + rest)[1..] == x[1..] + rest;
      NextStart(x + rest);
      PassToName(x[1..], rest);
    }
  }

  lemma AccountOfIsRead(f: Form, tail: string)
    requires ValidName(f.user) && ValidName(f.host) && Ends(f.host, tail)
    ensures FindUserHost(AccountOf(f, tail)) == Some((f.user.s, f.host.s))
  {
    hide ReadName, FindUserHost, ValidName, NameText;
    var second := NameText(f.host, tail);
    assert Ends(f.user, "@" + second);
    NameIsRead(f.user, "@" + second);
    NameIsRead(f.host, tail);
    NameStarts(f.host, tail);
    AccountHere(AccountOf(f, tail), f.user.s, second, f.host.s, tail);
  }

  lemma BehindIsPassed(f: Form, tail: string)
    requires ValidName(f.user)
    ensures FindUserHost(Behind(f, tail)) == FindUserHost(AccountOf(f, tail))
  {
    hide FindUserHost, ValidName, Quoteless, NameText;
    GrantWords();
    NameStarts(f.user, "@" + NameText(f.host, tail));
    PassToName(".* TO ", AccountOf(f, tail));
  }

  lemma NoAccountAtQuote(q: char, t: string)
    requires IsQuote(q) && NoAt(q, t)
    ensures UserHostHere([q] + t).None?
  {
    hide UpTo, SkipBlanks;
    assert ([q] + t)[1..] == t;
  }

  lemma QuotedIsPassed(q: char, s: string, rest: string)
    requires IsQuote(q) && q !in s && s != "" && Quoteless(s) && '@' !in s && NoAt(q, rest) && rest != "" && rest[0] == '.'
    ensures FindUserHost([q] + s + [q] + rest) == FindUserHost(rest)
  {
    hide FindUserHost, UserHostHere, ReadName, NoAt, Quoteless;
    var t, closing := [q] + s + [q] + rest, [q] + rest;
    NameInQuotes(q, s, rest);
    OneBlank(rest);
    NoAtBehind(t, s, rest);
    NextStart(t);
    assert t[1..] == s + closing;
    QuietIsPassed(s, closing);
    NoAccountAtQuote(q, rest);
    NextStart(closing);
    assert closing[1..] == rest;
  }

  lemma DatabaseIsPassed(f: Form, tail: string)
    requires Fits(f, tail)
    ensures FindUserHost(NameText(f.db, Behind(f, tail))) == FindUserHost(AccountOf(f, tail))
  {
    var b := Behind(f, tail);
    assert b[0] == '.';
    BehindIsPassed(f, tail);
    match f.db
    case InQuotes(q, s) =>
      hide FindUserHost, NoAt, Quoteless, Behind, Trimmed;
      QuotedIsPassed(q, s, b);
    case Bare(s) =>
      BareIsPassed(f, s, tail);
  }

  lemma BareIsPassed(f: Form, s: string, tail: string)
    requires ValidName(f.user) && Quoteless(s) && '@' !in s
    ensures FindUserHost(s + Behind(f, tail)) == FindUserHost(AccountOf(f, tail))
  {
    hide FindUserHost, ValidName, Quoteless, NameText;
    GrantWords();
    QuietJoin(s, ".* TO ");
    NameStarts(f.user, "@" + NameText(f.host, tail));
    var x := s + ".* TO ";
    assert x[|x| - 1] == ' ';
    PassToName(x, AccountOf(f, tail));
    Assoc(s, ".* TO ", AccountOf(f, tail));
  }

  lemma GrantAccount(f: Form, tail: string)
    requires Fits(f, tail)
    ensures FindUserHost(GrantText(f, tail)) == Some((f.user.s, f.host.s))
  {
    hide FindUserHost, GrantText, NameText, Behind;
    DatabaseIsPassed(f, tail);
    AccountOfIsRead(f, tail);
    var o := NameText(f.db, Behind(f, tail));
    NameStarts(f.db, Behind(f, tail));
    BeforeDatabase(f, tail);
    PassToName("GRANT " + f.privs + " ON ", o);
  }

  lemma BeforeDatabase(f: Form, tail: string)
    requires Fits(f, tail)
    ensures var before := "GRANT " + f.privs + " ON ";
      Quoteless(before) && '@' !in before && before[|before| - 1] == ' ' &&
      GrantText(f, tail) == before + NameText(f.db, Behind(f, tail))
  {
    GrantWords();
    QuietJoin("GRANT ", f.privs);
    QuietJoin("GRANT " + f.privs, " ON ");
    hide Quoteless, NameText, Behind;
    Respaced("GRANT " + f.privs, NameText(f.db, Behind(f, tail)));
  }

  lemma Respaced(a: string, o: string)
    ensures (a + " ON") + (" " + o) == a + " ON " + o
  {}

  lemma NoDotBehind(t: string, name: string, rest: string)
    requires ReadName(t) == Some((name, rest)) && SkipBlanks(rest) != "" && SkipBlanks(rest)[0] != '.'
    ensures !(ReadName(t).Some? && DotStar(ReadName(t).value.1))
  {
    hide ReadName, SkipBlanks;
  }

  /** The text before `ON`: without quotes and dots, up to a last blank. */
  predicate Dotless(y: string) { y != "" && y[|y| - 1] == ' ' && Quoteless(y) && '.' !in y }

  lemma {:induction false} WordHereLeaves(w: string, y: string, b: string)
    requires Capitals(w) && y != "" && y[|y| - 1] == ' ' && WordHere(w, y + b).Some?
    ensures var r := WordHere(w, y); r.Some? && r.value != "" && r.value == y[|y| - |r.value|..] && WordHere(w, y + b) == Some(r.value + b)
  {
    WordAcross(w, y, b);
    if w != "" { hide WordHere; }
  }

  lemma NoDotLeft(left: string, rest: string)
    requires '.' !in left && rest != "" && !IsBlank(rest[0]) && rest[0] != '.'
    ensures var s := SkipBlanks(left + (" " + rest)); s != "" && s[0] != '.'
  {
    hide SkipBlanks;
    var l := left + " ";
    assert left + (" " + rest) == l + rest;
    BlanksEnd(l, rest);
    assert '.' !in l;
    assert '.' !in SkipBlanks(l);
  }

  /** No name read in such a text is followed by a dot. */
  lemma NoDotHere(z: string, rest: string)
    requires Dotless(z) && rest != "" && !IsBlank(rest[0]) && rest[0] != '.'
    ensures !(ReadName(z + rest).Some? && DotStar(ReadName(z + rest).value.1))
  {
    hide WordOf, SkipBlanks, DotStar, ReadQuote;
    var t, z1 := z + rest, z[..|z| - 1];
    assert t[0] == z[0] && !IsQuote(t[0]);
    if IsWord(t[0]) {
      assert t == z1 + (" " + rest);
      WordEnds(z1, " " + rest);
      WordRest(z1);
      NoDotLeft(WordOf(z1).1, rest);
      NoDotBehind(t, WordOf(z1).0, WordOf(z1).1 + (" " + rest));
    }
  }

  lemma OnNeedsName(y: string, rest: string)
    requires Dotless(y) && rest != "" && rest[0] == 'O' && !(ReadName(rest).Some? && DotStar(ReadName(rest).value.1))
    ensures OnDbHere(y + rest).None?
  {
    hide ReadName, DotStar, SkipBlanks, WordHere;
    assert Capitals("ON");
    if After("ON", y + rest).Some? {
      WordHereLeaves("ON", y, rest);
      var r := WordHere("ON", y).value;
      BlanksEnd(r, rest);
      var z := SkipBlanks(r);
      assert z == r[|r| - |z|..];
      if z == "" {
        assert z + rest == rest;
      } else {
        NoDotHere(z, rest);
      }
    }
  }

  lemma {:induction false} PassToOn(y: string, rest: string)
    requires y == "" || Dotless(y)
    requires rest != "" && rest[0] == 'O' && !(ReadName(rest).Some? && DotStar(ReadName(rest).value.1))
    ensures FindOnDb(y + rest) == FindOnDb(rest)
  {
    hide OnDbHere, ReadName, DotStar;
    if y == "" {
      assert y + rest == rest;
    } else {
      OnNeedsName(y, rest);
      assert (y + rest)[1..] == y[1..] + rest;
      PassToOn(y[1..], rest);
    }
  }

  /** `ON` itself is no database name with a dot behind it. */
  lemma OnIsNoName(o: string)
    requires o != "" && !IsBlank(o[0]) && o[0] != '.'
    ensures var t := "ON" + (" " + o); !(ReadName(t).Some? && DotStar(ReadName(t).value.1))
  {
    hide WordOf, SkipBlanks, DotStar, ReadQuote;
    WordEnds("ON", " " + o);
    OnlyWord();
    OneBlank(o);
    assert "" + (" " + o) == " " + o;
    NoDotBehind("ON" + (" " + o), "ON", " " + o);
  }

  lemma OnlyWord()
    ensures WordOf("ON") == ("ON", "")
  {
    assert "ON"[1..] == "N" && "N"[1..] == "" && ['N'] + "" == "N" && ['O'] + "N" == "ON";
    assert WordOf("") == ("", "");
    assert WordOf("N") == ("N", "");
  }

  lemma OnDbIsRead(o: string, db: string, rest: string)
    requires o != "" && !IsBlank(o[0]) && ReadName(o) == Some((db, rest)) && DotStar(rest)
    ensures FindOnDb("ON" + (" " + o)) == Some(db)
  {
    hide ReadName, DotStar, After;
    AfterItself("ON", o);
  }

  lemma DotStarThere(rest: string)
    ensures DotStar(".* TO" + rest)
  {
    var t := ".* TO" + rest;
    assert t[0] == '.' && t[1..][0] == '*';
  }

  lemma GrantDatabase(f: Form, tail: string)
    requires Fits(f, tail)
    ensures FindOnDb(GrantText(f, tail)) == Some(f.db.s)
  {
    var o, b := NameText(f.db, Behind(f, tail)), Behind(f, tail);
    assert Ends(f.db, b) by { assert b[0] == '.' && !IsWord('.'); }
    BeforeOn(f, tail, o);
    assert b == ".* TO" + (" " + AccountOf(f, tail));
    DotStarThere(" " + AccountOf(f, tail));
    hide ReadName, DotStar, FindOnDb, NameText, Behind, ValidName;
    NameIsRead(f.db, b);
    NameStarts(f.db, b);
    OnIsNoName(o);
    OnDbIsRead(o, f.db.s, b);
    PassToOn("GRANT " + f.privs + " ", "ON" + (" " + o));
  }

  lemma BeforeOn(f: Form, tail: string, o: string)
    requires Fits(f, tail)
    ensures Dotless("GRANT " + f.privs + " ")
    ensures ("GRANT " + f.privs + " ON") + (" " + o) == ("GRANT " + f.privs + " ") + ("ON" + (" " + o))
  {
    hide ValidName, NoAt, Behind;
  }

  // ----- What is read -------------------------------------------------------

  lemma GrantIsGrant(f: Form, tail: string)
    ensures KindHere(GrantText(f, tail)) == Grant
  {
    var s := GrantText(f, tail);
    assert s == "GRANT " + s[6..];
    assert WordHere("CREATE USER ", s).None?;
    WordItself("GRANT ", s[6..]);
  }

  lemma NameEnds(n: Name)
    requires ValidName(n)
    ensures var t := NameText(n, ""); t != "" && !IsSpace(t[|t| - 1])
  {
    if n.Bare? { assert n.s + "" == n.s; }
  }

  lemma Appended(f: Form, tail: string)
    ensures GrantText(f, tail) == GrantText(f, "") + tail
  {
    NameAppended(f.host, "", tail);
    assert "" + tail == tail;
    var h := NameText(f.host, "");
    hide NameText;
    assert "@" + (h + tail) == ("@" + h) + tail;
    NameAppended(f.user, "@" + h, tail);
    var acc := AccountOf(f, "");
    assert ".* TO " + (acc + tail) == (".* TO " + acc) + tail;
    NameAppended(f.db, Behind(f, ""), tail);
  }

  lemma NameAppended(n: Name, rest: string, tail: string)
    ensures NameText(n, rest + tail) == NameText(n, rest) + tail
  {
    Assoc(if n.InQuotes? then [n.q] + n.s + [n.q] else n.s, rest, tail);
  }

  /** A grant ends as its tail does, or as its host. */
  lemma GrantEnds(f: Form, tail: string)
    requires ValidName(f.host)
    ensures var l := GrantText(f, ""); l != "" && l[0] == 'G' && !IsSpace(l[|l| - 1]) && !IsBlank(l[|l| - 1])
  {
    NameEnds(f.host);
    var h := NameText(f.host, "");
    hide NameText, ValidName;
    EndsWith(f.user, "@" + h, h);
    EndsWith(f.db, Behind(f, ""), h);
    var l, o := GrantText(f, ""), NameText(f.db, Behind(f, ""));
    assert l[|l| - 1] == o[|o| - 1];
  }

  lemma EndsWith(n: Name, rest: string, h: string)
    requires h != "" && rest != "" && rest[|rest| - 1] == h[|h| - 1]
    ensures var t := NameText(n, rest); t != "" && t[|t| - 1] == h[|h| - 1]
  {}

  lemma GrantIsTrimmed(f: Form, tail: string)
    requires ValidName(f.host) && (tail == "" || !IsSpace(tail[|tail| - 1]))
    ensures var l := GrantText(f, tail); l != "" && TrimSpace(l) == l
  {
    hide TrimSpace, GrantText, ValidName;
    GrantEnds(f, tail);
    Appended(f, tail);
    var l := GrantText(f, tail);
    assert l[0] == 'G';
    assert !IsSpace(l[|l| - 1]) && !IsSpace('G');
    TrimSame(l);
  }

  /** A grant of any privileges, with the names in quotes of any kind or without, is read as what it says; a star for
      the database means none. */
  lemma ServerGrantIsRead(f: Form, tail: string)
    requires Fits(f, tail)
    ensures var l := GrantText(f, tail);
      KindOf(REGEXES, l) == Grant && Account(REGEXES, l) == Some((f.user.s, f.host.s)) && Database(REGEXES, l) == if f.db.s == "*" then "" else f.db.s
  {
    GrantAccount(f, tail);
    GrantDatabase(f, tail);
    GrantIsGrant(f, tail);
    GrantIsTrimmed(f, tail);
    hide FindUserHost, FindOnDb, KindHere, TrimSpace, GrantText, Trimmed, NoAt, Behind, Quoteless;
    TrimSame(f.user.s); TrimSame(f.host.s); TrimSame(f.db.s);
  }

  // ----- Password clauses ---------------------------------------------------

  /** None of the names opens a clause. */
  predicate Unclaused(f: Form) { Unopened(f.db.s) && Unopened(f.user.s) && Unopened(f.host.s) }

  lemma NameUnopened(n: Name, rest: string)
    requires ValidName(n) && Unopened(n.s) && Unopened(rest) && (rest == "" || rest[0] == '.' || rest[0] == '@')
    ensures Unopened(NameText(n, rest))
  {
    TrimmedEnd(n.s);
    assert rest != "" ==> Joins(n.s[|n.s| - 1], rest);
    hide Unopened, Trimmed, Joins;
    match n
    case InQuotes(q, s) => UnopenedName(q, s, rest);
    case Bare(s) => if rest == "" { assert s + rest == s; } else { UnopenedJoin(s, rest); }
  }

  lemma UnopenedBlank(a: string, b: string)
    requires Unopened(a) && Unopened(b) && a != "" && a[|a| - 1] in "NO"
    ensures Unopened(a + (" " + b))
  {
    assert Joins(a[|a| - 1], " " + b);
    hide Unopened, Joins;
    UnopenedBehind(' ', b);
    UnopenedJoin(a, " " + b);
  }

  /** The text of a grant up to the host, which follows as `rest`. */
  function ToHost(f: Form, rest: string): string {
    ("GRANT " + f.privs + " ON") + (" " + NameText(f.db, ".* TO " + NameText(f.user, "@" + rest)))
  }

  lemma ToHostUnopened(f: Form, rest: string)
    requires Quoteless(f.privs) && ValidName(f.db) && ValidName(f.user) && Unopened(f.db.s) && Unopened(f.user.s) && Unopened(rest)
    ensures Unopened(ToHost(f, rest))
  {
    GrantWords();
    QuietJoin("GRANT ", f.privs);
    QuietJoin("GRANT " + f.privs, " ON");
    hide Unopened, Quoteless, ValidName, NameText;
    UnopenedBehind('@', rest);
    NameUnopened(f.user, "@" + rest);
    var acc := NameText(f.user, "@" + rest);
    QuotelessIsUnopened(".* TO");
    UnopenedBlank(".* TO", acc);
    assert ".* TO" + (" " + acc) == ".* TO " + acc;
    NameUnopened(f.db, ".* TO " + acc);
    var before := "GRANT " + f.privs + " ON";
    QuotelessIsUnopened(before);
    assert before[|before| - 1] == 'N';
    UnopenedBlank(before, NameText(f.db, ".* TO " + acc));
  }

  lemma GrantUnopened(f: Form, tail: string)
    requires Fits(f, tail) && Unclaused(f)
    ensures Unopened(GrantText(f, ""))
  {
    QuotelessIsUnopened("");
    hide Unopened, Quoteless, ValidName, NameText, NoAt, Behind;
    NameUnopened(f.host, "");
    ToHostUnopened(f, NameText(f.host, ""));
    hide ToHost;
    SameText(f, "");
  }

  lemma SameText(f: Form, tail: string)
    ensures GrantText(f, tail) == ToHost(f, NameText(f.host, tail))
  {}

  lemma ToHostAppended(f: Form, rest: string)
    ensures ToHost(f, rest) == ToHost(f, "") + rest
  {
    assert "@" + "" == "@";
    hide NameText;
    NameAppended(f.user, "@", rest);
    var acc := NameText(f.user, "@");
    Assoc(".* TO ", acc, rest);
    NameAppended(f.db, ".* TO " + acc, rest);
    var o := NameText(f.db, ".* TO " + acc);
    Assoc(" ", o, rest);
    Assoc("GRANT " + f.privs + " ON", " " + o, rest);
  }

  lemma ToHostEnds(f: Form)
    ensures ToHost(f, "") != "" && ToHost(f, "")[|ToHost(f, "")| - 1] == '@'
  {
    assert "@" + "" == "@";
    hide NameText;
    var acc := NameText(f.user, "@");
    EndsWith(f.user, "@", "@");
    EndsWith(f.db, ".* TO " + acc, "@");
  }

  /** A grant has just the clauses that begin with its host or behind it; with the host in quotes, just those
      behind it. */
  lemma GrantClauses(f: Form, tail: string)
    requires Fits(f, tail) && Unclaused(f)
    ensures Clauseless(GrantText(f, tail)) <==> Clauseless(NameText(f.host, tail))
    ensures f.host.InQuotes? ==> (Clauseless(GrantText(f, tail)) <==> Clauseless(tail))
  {
    QuotelessIsUnopened("");
    hide Unopened, Quoteless, ValidName, NoAt, Behind, GrantText, Clauseless, ToHost;
    SameText(f, tail);
    var front := ToHost(f, "");
    ToHostUnopened(f, "");
    ToHostAppended(f, NameText(f.host, tail));
    ToHostEnds(f);
    assert Joins('@', NameText(f.host, tail));
    ClauselessBehind(front, NameText(f.host, tail));
    if f.host.InQuotes? {
      var h := NameText(f.host, "");
      NameAppended(f.host, "", tail);
      assert "" + tail == tail;
      NameUnopened(f.host, "");
      QuoteJoins(f.host, tail);
      ClauselessBehind(h, tail);
    }
  }

  lemma QuoteJoins(n: Name, tail: string)
    requires ValidName(n) && n.InQuotes?
    ensures var h := NameText(n, ""); h != "" && Joins(h[|h| - 1], tail)
  {}

  /** With a clause behind the account. */
  function ClauseGrant(f: Form, q: char, hash: string, tail: string): string { GrantText(f, Clause(q, hash, tail)) }

  /** The clauses are taken out of a grant, and nothing else. */
  lemma GrantIsStripped(f: Form, q: char, hash: string, tail: string)
    requires Fits(f, Clause(q, hash, tail)) && Unclaused(f) && IsQuote(q) && q !in hash
    ensures Strip(ClauseGrant(f, q, hash, tail)) == GrantText(f, Strip(tail))
  {
    GrantUnopened(f, Clause(q, hash, tail));
    GrantEnds(f, "");
    hide GrantText, Clause, Strip, Unopened, Fits, IsQuote;
    Appended(f, Clause(q, hash, tail));
    Appended(f, Strip(tail));
    ClauseIsStripped(GrantText(f, ""), q, hash, tail);
  }

  /** A grant with a password clause is the same without it, exactly if taking it out does not make a new one. */
  lemma ClauseGrantIsSame(f: Form, q: char, hash: string, tail: string)
    requires Fits(f, Clause(q, hash, tail)) && Fits(f, Strip(tail)) && Unclaused(f) && IsQuote(q) && q !in hash
    ensures SameBared(ClauseGrant(f, q, hash, tail)) <==> Clauseless(NameText(f.host, Strip(tail)))
    ensures f.db.s != "*" ==> Database(REGEXES, ClauseGrant(f, q, hash, tail)) == f.db.s
  {
    hide *;
    var l, left := ClauseGrant(f, q, hash, tail), Strip(tail);
    FitsSays(f, left);
    ClauseGrantText(f, q, hash, tail);
    ServerGrantIsRead(f, Clause(q, hash, tail));
    ServerGrantIsRead(f, left);
    GrantIsStripped(f, q, hash, tail);
    GrantIsTrimmed(f, left);
    GrantClauses(f, left);
    SaysSame(l, GrantText(f, left));
  }

  lemma FitsSays(f: Form, tail: string)
    requires Fits(f, tail)
    ensures ValidName(f.host) && (tail == "" || !IsSpace(tail[|tail| - 1]))
  {
    hide NoAt, Behind, Quoteless, ValidName;
  }

  lemma ClauseGrantText(f: Form, q: char, hash: string, tail: string)
    ensures ClauseGrant(f, q, hash, tail) == GrantText(f, Clause(q, hash, tail))
  {
    hide GrantText, Clause;
  }

  lemma SaysSame(l: string, t: string)
    requires Strip(l) == t && TrimSpace(t) == t && KindOf(REGEXES, t) == Grant
    requires Account(REGEXES, t) == Account(REGEXES, l) && Database(REGEXES, t) == Database(REGEXES, l)
    ensures SameBared(l) <==> Clauseless(t)
  {
    hide KindOf, Account, Database, TrimSpace, Strip, Clauseless;
  }

  // ----- Names without quotes -----------------------------------------------

  lemma {:induction false} UpToPasses(q: char, x: string, t: string)
    requires q !in x
    ensures UpTo(q, x + t) == Prepend(x, UpTo(q, t))
  {
    if x == "" {
      assert x + t == t;
      PrependJoins("", "", UpTo(q, t));
    } else {
      assert (x + t)[1..] == x[1..] + t;
      UpToPasses(q, x[1..], t);
      PrependJoins([x[0]], x[1..], UpTo(q, t));
      assert [x[0]] + x[1..] == x;
    }
  }

  lemma NoAtPasses(q: char, x: string, t: string)
    requires q !in x && NoAt(q, t)
    ensures NoAt(q, x + t)
  {
    hide UpTo, SkipBlanks;
    UpToPasses(q, x, t);
  }

  lemma NoAtHere(q: char, t: string)
    requires t != "" && !IsBlank(t[0]) && t[0] != '@'
    ensures NoAt(q, [q] + t)
  {
    assert ([q] + t)[1..] == t;
  }

  /** A name without quotes in it that does not look like what follows a user. */
  predicate PlainName(n: Name) { ValidName(n) && Quoteless(n.s) && n.s[0] != '@' }

  lemma NoAtName(q: char, n: Name, rest: string)
    requires IsQuote(q) && PlainName(n) && NoAt(q, rest)
    ensures NoAt(q, NameText(n, rest))
  {
    assert q !in n.s && !IsBlank(n.s[0]);
    hide NoAt, AllWord, Trimmed, Quoteless;
    match n
    case InQuotes(k, s) =>
      if k == q {
        assert (s + [k] + rest)[0] == s[0];
        NoAtHere(q, s + [k] + rest);
        assert NameText(n, rest) == [q] + (s + [k] + rest);
      } else {
        assert q !in [k] + s + [k];
        NoAtPasses(q, [k] + s + [k], rest);
      }
    case Bare(s) => NoAtPasses(q, s, rest);
  }

  predicate PlainForm(f: Form) {
    && Quoteless(f.privs) && '@' !in f.privs && '.' !in f.privs
    && PlainName(f.db) && PlainName(f.user) && PlainName(f.host) && '@' !in f.db.s && f.db.s != "*"
  }

  /** Such names are read as they stand, each in quotes of any kind or bare. */
  lemma PlainFits(f: Form, tail: string)
    requires PlainForm(f) && Ends(f.host, tail) && (tail == "" || !IsSpace(tail[|tail| - 1]))
    requires f.db.InQuotes? ==> NoAt(f.db.q, tail)
    ensures Fits(f, tail) && Unclaused(f)
  {
    hide NoAt, AllWord, Quoteless, Unopened, NameText;
    QuotelessIsUnopened(f.db.s); QuotelessIsUnopened(f.user.s); QuotelessIsUnopened(f.host.s);
    if f.db.InQuotes? {
      var q := f.db.q;
      NoAtName(q, f.host, tail);
      NoAtPasses(q, "@", NameText(f.host, tail));
      NoAtName(q, f.user, "@" + NameText(f.host, tail));
      NoAtPasses(q, ".* TO ", AccountOf(f, tail));
    }
  }

  /** A hash that does not look like the host of an account. */
  predicate HashFits(hash: string) { Quoteless(hash) && (hash == "" || (!IsBlank(hash[0]) && hash[0] != '@')) }

  lemma NoAtClause(q: char, k: char, hash: string, tail: string)
    requires IsQuote(q) && IsQuote(k) && HashFits(hash) && NoAt(q, tail)
    ensures NoAt(q, Clause(k, hash, tail))
  {
    assert q !in CLAUSE && q !in " " by { ClauseIsQuoteless(); }
    assert q !in hash;
    hide NoAt, Quoteless;
    var quoted := [k] + hash + [k] + tail;
    if q == k {
      var rest := hash + [k] + tail;
      assert rest[0] == if hash == "" then k else hash[0];
      NoAtHere(q, rest);
      assert quoted == [q] + rest;
    } else {
      assert q !in [k] + hash + [k];
      NoAtPasses(q, [k] + hash + [k], tail);
    }
    NoAtPasses(q, CLAUSE, quoted);
    NoAtPasses(q, " ", CLAUSE + quoted);
  }

  lemma ClauseIsQuoteless()
    ensures Quoteless(CLAUSE) && Quoteless(" ")
  {}

  lemma HostTail(n: Name, tail: string)
    requires Clauseless(NameText(n, tail))
    ensures Clauseless(tail)
  {
    hide ClauseHere;
    var t := NameText(n, tail);
    forall i | 0 <= i <= |tail|
      ensures ClauseHere(tail[i..]).None?
    {
      assert t[|t| - |tail| + i..] == tail[i..];
    }
  }

  /** Every grant for names without quotes in them, each in quotes of any kind or bare, with a password clause in quotes
      of any kind and options behind it that bring no clause, is the same without the clause. */
  lemma PlainGrantIsSame(f: Form, k: char, hash: string, tail: string)
    requires PlainForm(f) && IsQuote(k) && HashFits(hash) && Ends(f.host, tail) && (tail == "" || !IsSpace(tail[|tail| - 1]))
    requires (f.db.InQuotes? ==> NoAt(f.db.q, tail)) && Clauseless(NameText(f.host, tail))
    ensures SameBared(ClauseGrant(f, k, hash, tail)) && Database(REGEXES, ClauseGrant(f, k, hash, tail)) == f.db.s
  {
    ClauseTail(f, k, hash, tail);
    assert k !in hash;
    hide *;
    if f.db.InQuotes? { QuoteOf(f); NoAtClause(f.db.q, k, hash, tail); }
    PlainFits(f, Clause(k, hash, tail));
    HostTail(f.host, tail);
    NoClauseFound(tail);
    PlainFits(f, tail);
    ClauseGrantIsSame(f, k, hash, tail);
  }

  lemma QuoteOf(f: Form)
    requires PlainForm(f) && f.db.InQuotes?
    ensures IsQuote(f.db.q)
  {}

  lemma ClauseTail(f: Form, k: char, hash: string, tail: string)
    requires IsQuote(k) && (tail == "" || !IsSpace(tail[|tail| - 1]))
    ensures var c := Clause(k, hash, tail); c != "" && !IsSpace(c[|c| - 1]) && Ends(f.host, c)
  {
    var c := Clause(k, hash, tail);
    assert c[|c| - 1] == if tail == "" then k else tail[|tail| - 1];
    assert c[0] == ' ';
  }

  // ----- A clause around a clause -------------------------------------------

  const HALF := " IDENTIFIED BY"

  function OtherHalf(hash: string): string { " PASSWORD " + ("'" + hash + "'") }

  lemma {:induction false} UnopenedLater(x: string, b: string)
    requires Unopened(b) && forall c :: c in x ==> !Folds(c, 'I')
    ensures Unopened(x + b)
  {
    hide Unopened;
    if x == "" {
      assert x + b == b;
    } else {
      UnopenedLater(x[1..], b);
      assert x + b == [x[0]] + (x[1..] + b);
      NotBegun(x[0], x[1..] + b);
    }
  }

  lemma NotBegun(c: char, b: string)
    requires Unopened(b) && !Folds(c, 'I')
    ensures Unopened([c] + b)
  {
    var t := [c] + b;
    assert WordHere("IDENTIFIED", t).None?;
    NotOpened(t);
    hide Opening;
    forall i | 0 <= i <= |t|
      ensures !Opening(t[i..])
    {
      if i == 0 { assert t[0..] == t; } else { assert t[i..] == b[i - 1..]; }
    }
  }

  lemma OtherHalfIsClauseless(hash: string)
    requires Quoteless(hash) && Trimmed(hash)
    ensures Clauseless(OtherHalf(hash))
  {
    assert forall c :: c in " PASSWORD '" ==> !Folds(c, 'I');
    hide Unopened, Clauseless, Quoteless, Trimmed;
    QuotelessIsUnopened(hash);
    UnopenedQuote();
    UnopenedJoin(hash, "'") by { QuoteFollows(hash); }
    UnopenedLater(" PASSWORD '", hash + "'");
    assert " PASSWORD '" + (hash + "'") == OtherHalf(hash);
    UnopenedIsClauseless(OtherHalf(hash));
  }

  lemma QuoteFollows(hash: string)
    requires Trimmed(hash)
    ensures hash == "" || Joins(hash[|hash| - 1], "'")
  {
    if hash != "" { TrimmedEnd(hash); }
  }

  /** The two halves of a clause, once there is nothing between them. */
  lemma HalvesJoin(a: string, hash: string)
    requires '\'' !in hash
    ensures !Clauseless(a + HALF + OtherHalf(hash))
  {
    var u, k := a + HALF + OtherHalf(hash), CLAUSE + (['\''] + hash + ['\''] + "");
    assert u[|a| + 1..] == k by { Halves(a, hash); }
    hide ClauseHere;
    ClauseIsRead('\'', hash, "");
    assert 0 <= |a| + 1 <= |u| && ClauseHere(u[|a| + 1..]).Some?;
  }

  lemma Halves(a: string, hash: string)
    ensures (a + HALF + OtherHalf(hash))[|a| + 1..] == CLAUSE + (['\''] + hash + ['\''] + "")
  {
    var quoted := "'" + hash + "'";
    assert a + HALF + OtherHalf(hash) == a + (" " + (CLAUSE + quoted));
    assert (a + (" " + (CLAUSE + quoted)))[|a| + 1..] == CLAUSE + quoted;
  }

  lemma HalfUnopened(a: string)
    requires Unopened(a) && a != "" && IsQuote(a[|a| - 1])
    ensures Unopened(a + HALF)
  {
    assert Quoteless(HALF) && Joins(a[|a| - 1], HALF);
    hide Unopened, Quoteless, Joins;
    QuotelessIsUnopened(HALF);
    UnopenedJoin(a, HALF);
  }

  /** Where the halves of one clause stand around another, taking out the inner one makes the outer one: such a line is not
      the same without its clauses. */
  lemma NestedClause(a: string, inner: string, outer: string)
    requires Unopened(a) && a != "" && !IsSpace(a[0]) && IsQuote(a[|a| - 1])
    requires '\'' !in inner && Quoteless(outer) && Trimmed(outer)
    ensures !SameBared(a + HALF + Clause('\'', inner, OtherHalf(outer)))
  {
    var l, u := a + HALF + Clause('\'', inner, OtherHalf(outer)), a + HALF + OtherHalf(outer);
    HalfUnopened(a);
    OtherHalfIsClauseless(outer);
    NestedEnds(a, outer);
    HalvesJoin(a, outer);
    hide *;
    NoClauseFound(OtherHalf(outer));
    NestedStrips(a, inner, outer);
    TrimSame(u);
    NotSame(l, u);
  }

  lemma NestedEnds(a: string, outer: string)
    requires a != "" && !IsSpace(a[0])
    ensures Trimmed(a + HALF + OtherHalf(outer))
  {
    var u := a + HALF + OtherHalf(outer);
    assert u[0] == a[0] && u[|u| - 1] == '\'';
  }

  lemma NestedStrips(a: string, inner: string, outer: string)
    requires Unopened(a + HALF) && '\'' !in inner && Strip(OtherHalf(outer)) == OtherHalf(outer)
    ensures Strip(a + HALF + Clause('\'', inner, OtherHalf(outer))) == a + HALF + OtherHalf(outer)
  {
    hide Strip, Unopened, Clause, OtherHalf;
    var b := a + HALF;
    assert b[|b| - 1] == 'Y';
    ClauseIsStripped(b, '\'', inner, OtherHalf(outer));
  }

  lemma NotSame(l: string, u: string)
    requires Strip(l) == u && TrimSpace(u) == u && !Clauseless(u)
    ensures !SameBared(l)
  {
    hide KindOf, Account, Database, TrimSpace, Strip, Clauseless;
  }
}
