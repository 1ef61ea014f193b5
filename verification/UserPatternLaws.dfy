/** What the regular expressions find in the account statements the program prints. */
module UserPatternLaws {
  import opened Text
  import opened SqlLiteral
  import opened UserRecords
  import opened UserBlocks
  import opened UserNormalForm
  import opened UserPatterns

  // ----- Account statements -------------------------------------------------

  /** Text that is printed as it is. */
  predicate Plain(s: string) { '\'' !in s && '\\' !in s }

  lemma EscapePlain(s: string)
    requires Plain(s)
    ensures EscapeSQL(s) == s
  {
    ReplaceAbsent(s, '\\', "\\\\");
    ReplaceAbsent(s, '\'', "''");
  }

  lemma {:induction false} UpToQuote(q: char, s: string, rest: string)
    requires q !in s
    ensures UpTo(q, s + ([q] + rest)) == Some((s, rest))
  {
    var t := s + ([q] + rest);
    if s == "" {
      assert t == [q] + rest && t[1..] == rest;
    } else {
      assert t[1..] == s[1..] + ([q] + rest);
      UpToQuote(q, s[1..], rest);
      assert [s[0]] + s[1..] == s;
    }
  }

  lemma OneBlank(rest: string)
    requires rest != "" && !IsBlank(rest[0])
    ensures SkipBlanks(rest) == rest && SkipBlanks(" " + rest) == rest
  {
    assert (" " + rest)[1..] == rest;
  }

  lemma NoAtBehind(t: string, name: string, rest: string)
    requires ReadName(t) == Some((name, rest)) && SkipBlanks(rest) != "" && SkipBlanks(rest)[0] != '@'
    ensures UserHostHere(t).None?
  {
    hide ReadName, SkipBlanks;
  }

  lemma NextStart(t: string)
    requires t != "" && UserHostHere(t).None?
    ensures FindUserHost(t) == FindUserHost(t[1..])
  {
    hide UserHostHere;
  }

  predicate Quoteless(s: string) { '`' !in s && '"' !in s && '\'' !in s }

  lemma {:induction false} WordEnds(x: string, rest: string)
    requires rest != "" && !IsWord(rest[0])
    ensures WordOf(x + rest) == (WordOf(x).0, WordOf(x).1 + rest)
  {
    if x == "" {
      assert x + rest == rest;
    } else {
      assert (x + rest)[1..] == x[1..] + rest;
      WordEnds(x[1..], rest);
    }
  }

  lemma {:induction false} BlanksEnd(x: string, rest: string)
    requires rest != "" && !IsBlank(rest[0])
    ensures SkipBlanks(x + rest) == SkipBlanks(x) + rest
  {
    if x == "" {
      assert x + rest == rest;
    } else {
      assert (x + rest)[1..] == x[1..] + rest;
      BlanksEnd(x[1..], rest);
    }
  }

  lemma {:induction false} WordRest(x: string)
    ensures forall c :: c in WordOf(x).1 ==> c in x
  {
    if x != "" { WordRest(x[1..]); }
  }

  /** No account begins in text without quotes and `@`. */
  lemma NoAccountHere(x: string, rest: string)
    requires x != "" && Quoteless(x) && '@' !in x
    requires rest != "" && !IsWord(rest[0]) && !IsBlank(rest[0]) && rest[0] != '@'
    ensures UserHostHere(x + rest).None?
  {
    hide WordOf, SkipBlanks, ReadQuote;
    var t := x + rest;
    assert t[0] == x[0] && !IsQuote(t[0]);
    if IsWord(t[0]) {
      WordEnds(x, rest);
      WordRest(x);
      BlanksEnd(WordOf(x).1, rest);
      NoAtBehind(t, WordOf(x).0, WordOf(x).1 + rest);
    }
  }

  lemma {:induction false} QuietIsPassed(x: string, rest: string)
    requires Quoteless(x) && '@' !in x
    requires rest != "" && !IsWord(rest[0]) && !IsBlank(rest[0]) && rest[0] != '@'
    ensures FindUserHost(x + rest) == FindUserHost(rest)
  {
    hide FindUserHost, UserHostHere;
    if x == "" {
      assert x + rest == rest;
    } else {
      NoAccountHere(x, rest);
      assert (x + rest)[1..] == x[1..] + rest;
      NextStart(x + rest);
      QuietIsPassed(x[1..], rest);
    }
  }

  lemma AccountHere(t: string, user: string, second: string, host: string, tail: string)
    requires ReadName(t) == Some((user, "@" + second)) && ReadName(second) == Some((host, tail))
    requires second != "" && !IsBlank(second[0])
    ensures FindUserHost(t) == Some((user, host))
  {
    hide ReadName;
    OneBlank(second);
    OneBlank("@" + second);
    assert ("@" + second)[1..] == second;
  }

  /** An account in quotes of one kind. */
  function AccountText(q: char, user: string, host: string, tail: string): string {
    [q] + user + [q] + ("@" + ([q] + host + [q] + tail))
  }

  lemma NameInQuotes(q: char, s: string, rest: string)
    requires IsQuote(q) && q !in s && s != ""
    ensures ReadName([q] + s + [q] + rest) == Some((s, rest))
  {
    var t := [q] + s + [q] + rest;
    assert t[1..] == s + ([q] + rest);
    UpToQuote(q, s, rest);
  }

  /** What is read as the account is what stands between the quotes. */
  lemma AccountIsRead(q: char, user: string, host: string, tail: string)
    requires IsQuote(q) && user != "" && host != "" && q !in user && q !in host
    ensures FindUserHost(AccountText(q, user, host, tail)) == Some((user, host))
  {
    hide ReadName, FindUserHost;
    var second := [q] + host + [q] + tail;
    NameInQuotes(q, user, "@" + second);
    NameInQuotes(q, host, tail);
    AccountHere(AccountText(q, user, host, tail), user, second, host, tail);
  }

  lemma {:induction false} WordItself(w: string, rest: string)
    ensures WordHere(w, w + rest) == Some(rest)
  {
    if w == "" {
      assert w + rest == rest;
    } else {
      assert (w + rest)[1..] == w[1..] + rest;
      WordItself(w[1..], rest);
    }
  }

  lemma AfterItself(w: string, rest: string)
    requires rest != "" && !IsBlank(rest[0])
    ensures After(w, w + (" " + rest)) == Some(rest)
  {
    hide WordHere, SkipBlanks;
    WordItself(w, " " + rest);
    OneBlank(rest);
  }

  // ----- Where a password clause can begin ----------------------------------

  /** A password clause up to its opening quote. */
  predicate Opening(t: string) {
    var a := After("IDENTIFIED", t);
    a.Some? &&
    var b := After("BY", a.value);
    b.Some? &&
    var c := After("PASSWORD", b.value);
    c.Some? && c.value != "" && IsQuote(c.value[0])
  }

  /** No password clause is opened in the text. */
  predicate Unopened(s: string) { forall i :: 0 <= i <= |s| ==> !Opening(s[i..]) }

  predicate IsLetter(c: char) { 'a' <= c <= 'z' || 'A' <= c <= 'Z' || c as int == 0x17F }

  /** Behind `c`, the text `b` does not go on with a password clause begun before. */
  predicate Joins(c: char, b: string) {
    !IsBlank(c) &&
    (!IsLetter(c) ||
     (b != "" && !IsLetter(b[0]) && (!IsBlank(b[0]) || (!Folds(c, 'D') && !Folds(c, 'Y')))))
  }

  predicate Capitals(w: string) { forall i :: 0 <= i < |w| ==> 'A' <= w[i] <= 'Z' }

  /** A word of the clause is not found across such a joint. */
  lemma {:induction false} WordAcross(w: string, y: string, b: string)
    requires Capitals(w) && WordHere(w, y + b).Some? && y != ""
    requires !IsLetter(y[|y| - 1]) || (b != "" && !IsLetter(b[0])) || w == ""
    ensures var r := WordHere(w, y); r.Some? && WordHere(w, y + b) == Some(r.value + b)
    ensures var r := WordHere(w, y).value; r == y[|y| - |r|..] && (r == "" ==> w != "" && Folds(y[|y| - 1], w[|w| - 1]))
    decreases |w|
  {
    if w != "" {
      WordStarts(w, y + b);
      assert (y + b)[0] == y[0] && (y + b)[1..] == y[1..] + b;
      hide IsLetter, Folds;
      if |y| == 1 {
        assert y[1..] + b == b;
        if |w| > 1 { WordStarts(w[1..], b); }
      } else {
        WordAcross(w[1..], y[1..], b);
      }
    }
  }

  lemma WordStarts(w: string, t: string)
    requires Capitals(w) && w != "" && WordHere(w, t).Some?
    ensures t != "" && IsLetter(t[0]) && Folds(t[0], w[0])
  {}

  lemma {:induction false} BlanksStop(t: string, more: string)
    requires t != "" && !IsBlank(t[|t| - 1])
    ensures SkipBlanks(t) != "" && SkipBlanks(t + more) == SkipBlanks(t) + more
  {
    assert (t + more)[0] == t[0];
    if IsBlank(t[0]) {
      assert (t + more)[1..] == t[1..] + more;
      BlanksStop(t[1..], more);
    }
  }

  predicate EndsLike(w: string) { Capitals(w) && w != "" && w[|w| - 1] in "DY" }

  lemma ClauseWords()
    ensures EndsLike("IDENTIFIED") && EndsLike("BY") && EndsLike("PASSWORD")
  {}

  lemma AfterAcross(w: string, y: string, b: string)
    requires EndsLike(w) && y != "" && Joins(y[|y| - 1], b) && After(w, y + b).Some?
    ensures var r := After(w, y); r.Some? && r.value != "" && After(w, y + b) == Some(r.value + b)
    ensures var r := After(w, y).value; r[|r| - 1] == y[|y| - 1]
  {
    hide WordHere, SkipBlanks;
    WordAcross(w, y, b);
    var r := WordHere(w, y).value;
    assert "" + b == b;
    if r != "" { BlanksStop(r, b); }
  }

  /** A clause opened in `y + b` and begun in `y` is opened in `y`. */
  lemma OpeningAcross(y: string, b: string)
    requires y != "" && Joins(y[|y| - 1], b) && Opening(y + b)
    ensures Opening(y)
  {
    ClauseWords();
    hide After, Joins, EndsLike;
    AfterAcross("IDENTIFIED", y, b);
    var a := After("IDENTIFIED", y).value;
    AfterAcross("BY", a, b);
    var c := After("BY", a).value;
    AfterAcross("PASSWORD", c, b);
  }

  lemma UnopenedJoin(a: string, b: string)
    requires Unopened(a) && Unopened(b) && (a == "" || Joins(a[|a| - 1], b))
    ensures Unopened(a + b)
  {
    hide Opening, Joins;
    var t := a + b;
    forall i | 0 <= i <= |t|
      ensures !Opening(t[i..])
    {
      if i < |a| {
        assert t[i..] == a[i..] + b;
        if Opening(t[i..]) { OpeningAcross(a[i..], b); }
      } else {
        assert t[i..] == b[i - |a|..];
      }
    }
  }

  /** Nothing is opened by a character that begins no clause. */
  lemma UnopenedBehind(c: char, b: string)
    requires Unopened(b) && !IsLetter(c)
    ensures Unopened([c] + b)
  {
    var t := [c] + b;
    assert WordHere("IDENTIFIED", t).None?;
    hide Opening;
    forall i | 1 <= i <= |t|
      ensures !Opening(t[i..])
    {
      assert t[i..] == b[i - 1..];
    }
    assert t[0..] == t;
    assert !Opening(t) by { NotOpened(t); }
  }

  lemma NotOpened(t: string)
    requires WordHere("IDENTIFIED", t).None?
    ensures !Opening(t)
  {}

  lemma {:induction false} WordLeaves(w: string, t: string)
    requires WordHere(w, t).Some?
    ensures forall c :: c in WordHere(w, t).value ==> c in t
    decreases |w|
  {
    if w != "" { WordLeaves(w[1..], t[1..]); }
  }

  lemma AfterLeaves(w: string, t: string)
    requires After(w, t).Some?
    ensures forall c :: c in After(w, t).value ==> c in t
  {
    hide WordHere, SkipBlanks;
    WordLeaves(w, t);
  }

  /** In text without quotes no clause is opened, whatever words are in it. */
  lemma QuotelessIsUnopened(s: string)
    requires Quoteless(s)
    ensures Unopened(s)
  {
    forall i | 0 <= i <= |s|
      ensures !Opening(s[i..])
    {
      NeedsQuote(s[i..]);
    }
  }

  lemma NeedsQuote(t: string)
    requires Quoteless(t)
    ensures !Opening(t)
  {
    hide After;
    if After("IDENTIFIED", t).Some? {
      var a := After("IDENTIFIED", t).value;
      AfterLeaves("IDENTIFIED", t);
      if After("BY", a).Some? {
        var b := After("BY", a).value;
        AfterLeaves("BY", a);
        if After("PASSWORD", b).Some? { AfterLeaves("PASSWORD", b); }
      }
    }
  }

  lemma ClauseOpens(t: string)
    requires ClauseHere(t).Some?
    ensures Opening(t)
  {
    hide After, UpTo;
  }

  /** A clause is not looked for in vain in text that opens none. */
  lemma {:induction false} ClauseIsPassed(a: string, rest: string)
    requires Unopened(a) && (a == "" || Joins(a[|a| - 1], rest))
    ensures FindClause(a + rest) == FindClause(rest)
  {
    hide ClauseHere, Opening, Joins;
    if a == "" {
      assert a + rest == rest;
    } else {
      assert a[0..] == a;
      if ClauseHere(a + rest).Some? {
        ClauseOpens(a + rest);
        OpeningAcross(a, rest);
      }
      assert (a + rest)[1..] == a[1..] + rest;
      UnopenedRest(a);
      ClauseIsPassed(a[1..], rest);
    }
  }

  lemma UnopenedRest(a: string)
    requires Unopened(a) && a != ""
    ensures Unopened(a[1..])
  {
    hide Opening;
    forall i | 0 <= i <= |a[1..]|
      ensures !Opening(a[1..][i..])
    {
      assert a[1..][i..] == a[i + 1..];
    }
  }

  // ----- Account statements -------------------------------------------------

  const CREATE_WORDS := "CREATE USER IF NOT EXISTS"

  /** An account statement up to its tail. */
  function Front(user: string, host: string): string {
    CREATE + ("'" + user + "'" + ("@" + ("'" + host + "'")))
  }

  /** A name in quotes and what follows. */
  lemma UnopenedName(q: char, s: string, rest: string)
    requires IsQuote(q) && Unopened(s) && Unopened(rest) && (s == "" || !IsBlank(s[|s| - 1]))
    ensures Unopened([q] + s + [q] + rest)
  {
    hide Unopened, Opening;
    UnopenedBehind(q, rest);
    UnopenedJoin(s, [q] + rest);
    UnopenedBehind(q, s + ([q] + rest));
    assert [q] + s + [q] + rest == [q] + (s + ([q] + rest));
  }

  /** A name one can put into a statement without opening a clause. */
  predicate Calm(s: string) { Unopened(s) && s != "" && !IsBlank(s[|s| - 1]) }

  lemma AccountUnopened(q: char, user: string, host: string, tail: string)
    requires IsQuote(q) && Calm(user) && Calm(host) && Unopened(tail)
    ensures Unopened(AccountText(q, user, host, tail))
  {
    hide Unopened;
    UnopenedName(q, host, tail);
    UnopenedBehind('@', [q] + host + [q] + tail);
    UnopenedName(q, user, "@" + ([q] + host + [q] + tail));
  }

  lemma FrontUnopened(user: string, host: string)
    requires Calm(user) && Calm(host)
    ensures Unopened(Front(user, host))
  {
    CreateWords();
    hide Unopened, Quoteless, Joins, Calm;
    var acc := AccountText('\'', user, host, "");
    QuotelessIsUnopened("");
    AccountUnopened('\'', user, host, "");
    UnopenedBehind(' ', acc);
    UnopenedJoin(CREATE_WORDS, [' '] + acc) by { JoinsAtBlank(acc); }
    assert CREATE_WORDS + ([' '] + acc) == Front(user, host);
  }

  lemma JoinsAtBlank(rest: string)
    ensures Joins(CREATE_WORDS[|CREATE_WORDS| - 1], [' '] + rest)
  {}

  lemma CreateWords()
    ensures Quoteless(CREATE_WORDS) && Unopened(CREATE_WORDS) && CREATE == CREATE_WORDS + " "
    ensures Quoteless(CREATE) && '@' !in CREATE
  {
    CreateIsQuoteless();
    hide Unopened, Quoteless;
    QuotelessIsUnopened(CREATE_WORDS);
  }

  lemma CreateIsQuoteless()
    ensures Quoteless(CREATE_WORDS) && Quoteless(CREATE) && '@' !in CREATE
  {}

  lemma ClauseSteps(t: string, a: string, b: string, c: string, r: (string, string))
    requires After("IDENTIFIED", t) == Some(a) && After("BY", a) == Some(b) && After("PASSWORD", b) == Some(c)
    requires ReadQuote(c) == Some(r)
    ensures ClauseHere(t) == Some(r)
  {
    hide After, ReadQuote;
  }

  const CLAUSE := "IDENTIFIED BY PASSWORD "

  lemma QuoteIsRead(q: char, s: string, rest: string)
    requires IsQuote(q) && q !in s
    ensures ReadQuote([q] + s + [q] + rest) == Some((s, rest))
  {
    var t := [q] + s + [q] + rest;
    assert t[1..] == s + ([q] + rest);
    UpToQuote(q, s, rest);
  }

  /** A password clause, in quotes of any kind, is read as its hash, up to its closing quote. */
  lemma ClauseIsRead(q: char, hash: string, rest: string)
    requires IsQuote(q) && q !in hash
    ensures ClauseHere(CLAUSE + ([q] + hash + [q] + rest)) == Some((hash, rest))
  {
    hide ReadQuote, After, SkipBlanks, ClauseHere;
    var quoted := [q] + hash + [q] + rest;
    QuoteIsRead(q, hash, rest);
    var c := "PASSWORD" + (" " + quoted);
    var b := "BY" + (" " + c);
    var a := "IDENTIFIED" + (" " + b);
    AfterItself("PASSWORD", quoted);
    AfterItself("BY", c);
    AfterItself("IDENTIFIED", b);
    ClauseSteps(a, b, c, quoted, (hash, rest));
    ClauseText(quoted);
  }

  lemma ClauseText(quoted: string)
    ensures CLAUSE + quoted == "IDENTIFIED" + (" " + ("BY" + (" " + ("PASSWORD" + (" " + quoted)))))
    ensures IDENTIFIED + quoted == " " + (CLAUSE + quoted)
  {}

  lemma ClauseIsFound(q: char, hash: string, rest: string)
    requires IsQuote(q) && q !in hash
    ensures FindClause(CLAUSE + ([q] + hash + [q] + rest)) == Some(hash)
  {
    hide ClauseHere;
    ClauseIsRead(q, hash, rest);
  }

  lemma TailIsRead(hash: string)
    requires '\'' !in hash
    ensures FindClause(IDENTIFIED + ("'" + hash + "'" + ";")) == Some(hash)
  {
    hide FindClause;
    var quoted := ['\''] + hash + ['\''] + ";";
    ClauseIsFound('\'', hash, ";");
    ClauseText(quoted);
    NothingAtBlank(CLAUSE + quoted);
  }

  lemma NothingAtBlank(rest: string)
    ensures FindClause(" " + rest) == FindClause(rest)
  {
    assert (" " + rest)[1..] == rest;
    assert WordHere("IDENTIFIED", " " + rest).None?;
  }

  lemma NoClauseInSemicolon()
    ensures FindClause(";") == None
  {
    assert ";"[1..] == "";
    assert WordHere("IDENTIFIED", ";").None? && WordHere("IDENTIFIED", "").None?;
  }

  lemma CreateIsTrimmed(user: string, host: string, hash: string)
    ensures TrimSpace(CreateStmt(user, host, hash)) == CreateStmt(user, host, hash)
  {
    CreateEnds(user, host, hash);
    hide EscapeSQL, TrimSpace;
    var s := CreateStmt(user, host, hash);
    assert s[0] == 'C';
    TrimSame(s);
  }

  /** Names without quotes are read from the statement as they were escaped. */
  lemma NamesAreRead(user: string, host: string, hash: string)
    requires user != "" && host != "" && '\'' !in EscapeSQL(user) && '\'' !in EscapeSQL(host)
    requires EscapeSQL(user) != "" && EscapeSQL(host) != ""
    ensures FindUserHost(CreateStmt(user, host, hash)) == Some((EscapeSQL(user), EscapeSQL(host)))
  {
    CreateWords();
    hide EscapeSQL, FindUserHost, CreateTail, Quoteless;
    AccountIsRead('\'', EscapeSQL(user), EscapeSQL(host), CreateTail(hash));
    QuietIsPassed(CREATE, Quoted(user) + ("@" + (Quoted(host) + CreateTail(hash))));
  }

  lemma Regroup(a: string, b: string, c: string, d: string, tail: string)
    ensures a + (b + (c + (d + tail))) == a + (b + (c + d)) + tail
  {}

  lemma HashIsRead(user: string, host: string, hash: string)
    requires Plain(user) && Plain(host) && Plain(hash) && Calm(user) && Calm(host)
    ensures FindClause(CreateStmt(user, host, hash)) == if hash == "" then None else Some(hash)
  {
    EscapePlain(user); EscapePlain(host); EscapePlain(hash);
    FrontUnopened(user, host);
    hide EscapeSQL, FindClause, Unopened, Plain, Calm;
    var tail := CreateTail(hash);
    Regroup(CREATE, Quoted(user), "@", Quoted(host), tail);
    ClauseIsPassed(Front(user, host), tail);
    if hash == "" { NoClauseInSemicolon(); } else { TailIsRead(hash); }
  }

  lemma CreateIsCreate(user: string, host: string, hash: string)
    ensures KindHere(CreateStmt(user, host, hash)) == CreateUser
  {
    hide EscapeSQL, WordHere;
    var s := CreateStmt(user, host, hash);
    assert s == "CREATE USER " + s[12..];
    WordItself("CREATE USER ", s[12..]);
  }

  lemma CreateIsOneLine(user: string, host: string, hash: string)
    requires Plain(user) && Plain(host) && Plain(hash) && OneLine(user) && OneLine(host) && OneLine(hash)
    ensures OneLine(CreateStmt(user, host, hash))
  {
    EscapePlain(user); EscapePlain(host); EscapePlain(hash);
    hide EscapeSQL, Plain, OneLine;
    QuotedIsOneLine(user); QuotedIsOneLine(host); QuotedIsOneLine(hash);
    OneLinesJoin(Quoted(hash), ";");
    OneLinesJoin(IDENTIFIED, Quoted(hash) + ";");
    OneLinesJoin(Quoted(host), CreateTail(hash));
    OneLinesJoin("@", Quoted(host) + CreateTail(hash));
    OneLinesJoin(Quoted(user), "@" + (Quoted(host) + CreateTail(hash)));
    OneLinesJoin(CREATE, Quoted(user) + ("@" + (Quoted(host) + CreateTail(hash))));
    KeywordsAreOneLine();
  }

  lemma KeywordsAreOneLine()
    ensures OneLine(";") && OneLine(IDENTIFIED) && OneLine("@") && OneLine(CREATE)
  {}

  lemma OneLinesJoin(a: string, b: string)
    ensures OneLine(a) && OneLine(b) ==> OneLine(a + b)
  {}

  lemma QuotedIsOneLine(s: string)
    requires OneLine(s) && EscapeSQL(s) == s
    ensures OneLine(Quoted(s))
  {
    hide EscapeSQL;
  }

  /** The account statements the program prints are read by its own patterns as the account they create, for
      all names and hashes that need no escaping, if the names do not open a password clause themselves;
      without double quotes and backticks they cannot (QuotelessIsUnopened). */
  lemma CreateIsReread(user: string, host: string, hash: string)
    requires Plain(user) && Plain(host) && Plain(hash) && OneLine(user) && OneLine(host) && OneLine(hash)
    requires Trimmed(user) && Trimmed(host) && Trimmed(hash) && user != "" && host != ""
    requires Unopened(user) && Unopened(host)
    ensures CreateRereads(REGEXES, user, host, hash)
  {
    hide *;
    EscapePlain(user); EscapePlain(host);
    CreateIsOneLine(user, host, hash);
    CreateIsTrimmed(user, host, hash);
    CreateIsCreate(user, host, hash);
    NamesAreRead(user, host, hash) by { NoQuoteInPlain(user); NoQuoteInPlain(host); }
    IsCalm(user); IsCalm(host);
    HashIsRead(user, host, hash);
    TrimSame(user); TrimSame(host); TrimSame(hash);
    FoundSays(user, host, hash, CreateStmt(user, host, hash));
  }

  lemma NoQuoteInPlain(s: string)
    requires Plain(s)
    ensures '\'' !in s
  {}

  lemma IsCalm(s: string)
    requires Trimmed(s) && s != "" && Unopened(s)
    ensures Calm(s)
  {
    hide Unopened;
    TrimmedEnd(s);
  }

  lemma FoundSays(user: string, host: string, hash: string, s: string)
    requires s == CreateStmt(user, host, hash) && OneLine(s) && TrimSpace(s) == s && KindHere(s) == CreateUser
    requires FindUserHost(s) == Some((user, host)) && FindClause(s) == if hash == "" then None else Some(hash)
    requires user != "" && host != "" && TrimSpace(user) == user && TrimSpace(host) == host && TrimSpace(hash) == hash
    ensures CreateRereads(REGEXES, user, host, hash)
  {
    CreateEnds(user, host, hash);
    hide OneLine, TrimSpace, KindHere, FindUserHost, FindClause, CreateStmt;
  }

  /** A name that opens a clause is taken for the hash. */
  lemma ClauseInName(hash: string, host: string, own: string)
    requires Plain(hash) && '"' !in hash
    ensures Password(REGEXES, CreateStmt(CLAUSE + ("\"" + hash + "\""), host, own)) == TrimSpace(hash)
  {
    hide *;
    var user, behind := CLAUSE + ("\"" + hash + "\""), "'" + ("@" + (Quoted(host) + CreateTail(own)));
    var clause := CLAUSE + (['"'] + hash + ['"'] + behind);
    NameIsPlain(hash);
    DoubleIsQuote();
    ClauseIsFound('"', hash, behind);
    OpenedFront(clause);
    ClauseIsPassed(CREATE + "'", clause);
    OpenedText(user, hash, host, own, clause);
    CreateIsTrimmed(user, host, own);
    PasswordSays(CreateStmt(user, host, own), hash);
  }

  lemma DoubleIsQuote()
    ensures IsQuote('"')
  {}

  lemma OpenedFront(clause: string)
    ensures Unopened(CREATE + "'") && Joins((CREATE + "'")[|CREATE + "'"| - 1], clause)
  {
    CreateWords();
    UnopenedQuote();
    hide Unopened, Quoteless;
    UnopenedBehind(' ', "'");
    JoinsAtBlank("'");
    UnopenedJoin(CREATE_WORDS, [' '] + "'");
    assert CREATE_WORDS + ([' '] + "'") == CREATE + "'";
  }

  lemma OpenedText(user: string, hash: string, host: string, own: string, clause: string)
    requires user == CLAUSE + ("\"" + hash + "\"") && EscapeSQL(user) == user
    requires clause == CLAUSE + (['"'] + hash + ['"'] + ("'" + ("@" + (Quoted(host) + CreateTail(own)))))
    ensures CreateStmt(user, host, own) == CREATE + "'" + clause
  {
    hide EscapeSQL, CreateTail;
    var behind := "'" + ("@" + (Quoted(host) + CreateTail(own)));
    assert Quoted(user) + ("@" + (Quoted(host) + CreateTail(own))) == "'" + user + behind;
    Requoted(user, hash, behind);
    Assoc(CREATE, "'", clause);
  }

  lemma PasswordSays(s: string, hash: string)
    requires TrimSpace(s) == s && FindClause(s) == Some(hash)
    ensures Password(REGEXES, s) == TrimSpace(hash)
  {
    hide TrimSpace, FindClause;
  }

  lemma NameIsPlain(hash: string)
    requires Plain(hash)
    ensures EscapeSQL(CLAUSE + ("\"" + hash + "\"")) == CLAUSE + ("\"" + hash + "\"")
  {
    assert Plain(CLAUSE);
    EscapePlain(CLAUSE + ("\"" + hash + "\""));
  }

  lemma UnopenedQuote()
    ensures Unopened("'")
  {
    hide Opening;
    QuotelessIsUnopened("");
    UnopenedBehind('\'', "");
    assert ['\''] + "" == "'";
  }

  lemma Requoted(user: string, hash: string, behind: string)
    requires user == CLAUSE + ("\"" + hash + "\"")
    ensures "'" + user + behind == "'" + (CLAUSE + (['"'] + hash + ['"'] + behind))
  {}

  lemma TrimmedEnd(s: string)
    requires Trimmed(s) && s != ""
    ensures !IsBlank(s[|s| - 1])
  {}
}
