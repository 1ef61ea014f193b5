/** Which names the program reads back from its own account statements: exactly those it prints without
    escaping them. */
module UserNameLaws {
  import opened Text
  import opened SqlLiteral
  import opened UserRecords
  import opened UserBlocks
  import opened UserPatterns
  import opened UserPatternLaws

  // ----- Escaped names are not read back ------------------------------------

  lemma {:induction false} DoubledBackslashes(s: string)
    ensures var r := ReplaceAll(s, '\\', "\\\\");
      |r| >= |s| && (|r| == |s| <==> '\\' !in s) && ('\'' !in s ==> '\'' !in r) && (s != "" ==> r[0] == s[0] && r[|r| - 1] == s[|s| - 1])
  {
    if s != "" {
      var rest := ReplaceAll(s[1..], '\\', "\\\\");
      DoubledBackslashes(s[1..]);
      assert s == [s[0]] + s[1..];
      if |s| > 1 { assert s[1..][|s| - 2] == s[|s| - 1]; }
    }
  }

  lemma EscapedName(s: string)
    requires '\'' !in s && s != "" && Trimmed(s)
    ensures var e := EscapeSQL(s); e != "" && '\'' !in e && Trimmed(e) && (e == s <==> '\\' !in s)
  {
    hide ReplaceAll;
    DoubledBackslashes(s);
    ReplaceAbsent(ReplaceAll(s, '\\', "\\\\"), '\'', "''");
    if '\\' !in s { ReplaceAbsent(s, '\\', "\\\\"); }
  }

  /** Names without quotes come back from their own statement exactly if they have no backslash: what is
      escaped when it is printed is not undone when it is read. */
  lemma BackslashIsDoubled(user: string, host: string, hash: string)
    requires user != "" && host != "" && Trimmed(user) && Trimmed(host) && '\'' !in user && '\'' !in host
    ensures Account(REGEXES, CreateStmt(user, host, hash)) == Some((user, host)) <==> Plain(user) && Plain(host)
  {
    hide EscapeSQL, FindUserHost, CreateStmt, TrimSpace, Trimmed;
    EscapedName(user); EscapedName(host);
    CreateIsTrimmed(user, host, hash);
    NamesAreRead(user, host, hash);
    TrimSame(EscapeSQL(user)); TrimSame(EscapeSQL(host));
  }

  lemma EscapedQuote(a: string, b: string)
    requires Plain(a) && Plain(b)
    ensures EscapeSQL(a + "'" + b) == a + "''" + b
  {
    ReplaceAbsent(a, '\\', "\\\\"); ReplaceAbsent(b, '\\', "\\\\");
    ReplaceConcat(a + "'", b, '\\', "\\\\");
    ReplaceConcat(a, "'", '\\', "\\\\");
    ReplaceAbsent(a, '\'', "''"); ReplaceAbsent(b, '\'', "''");
    ReplaceConcat(a + "'", b, '\'', "''");
    ReplaceConcat(a, "'", '\'', "''");
    assert "'"[1..] == "" && ReplaceAll("'", '\\', "\\\\") == "'" && ReplaceAll("'", '\'', "''") == "''";
  }

  lemma EmptyQuote(rest: string)
    ensures UserHostHere("''" + rest).None?
  {
    assert ("''" + rest)[1..] == "'" + rest;
    assert ("'" + rest)[1..] == rest;
  }

  lemma CutAtQuote(a: string, b: string, rest: string)
    requires Quoteless(a) && '@' !in a && a != ""
    ensures FindUserHost("'" + (a + ("''" + (b + ("'" + rest))))) == FindUserHost("'" + b + "'" + rest)
  {
    hide FindUserHost, UserHostHere, ReadName;
    var close := b + ("'" + rest);
    var t, doubled := "'" + (a + ("''" + close)), "''" + close;
    Requote(a, close);
    NameInQuotes('\'', a, "'" + close);
    OneBlank("'" + close);
    NoAtBehind(t, a, "'" + close);
    NextStart(t);
    QuietIsPassed(a, doubled);
    EmptyQuote(close);
    NextStart(doubled);
    assert doubled[1..] == "'" + close == "'" + b + "'" + rest;
  }

  lemma Requote(a: string, close: string)
    ensures "'" + (a + ("''" + close)) == "'" + a + "'" + ("'" + close)
    ensures ("'" + (a + ("''" + close)))[1..] == a + ("''" + close)
  {}

  /** A quote in a name cuts off what stands before it. */
  lemma QuoteCutsName(a: string, b: string, host: string, hash: string)
    requires Quoteless(a) && '@' !in a && '\\' !in a && a != "" && b != "" && host != "" && Plain(b) && Plain(host) && Trimmed(b) && Trimmed(host)
    ensures Account(REGEXES, CreateStmt(a + "'" + b, host, hash)) == Some((b, host))
  {
    hide *;
    var user, tail := a + "'" + b, CreateTail(hash);
    var rest := "@" + (Quoted(host) + tail);
    EscapedQuote(a, b) by { NoQuoteInQuoteless(a); }
    EscapePlain(host);
    NoQuoteInPlain(b); NoQuoteInPlain(host);
    QuotedCut(a, b, rest);
    CutAtQuote(a, b, rest);
    AccountIsRead('\'', b, host, tail) by { SingleIsQuote(); }
    AccountQuoted(b, host, tail);
    CreateWords();
    QuietIsPassed(CREATE, Quoted(user) + rest) by { QuotedStarts(user, rest); }
    CreateIsTrimmed(user, host, hash);
    TrimSame(b); TrimSame(host);
    AccountSays(user, host, hash, b);
  }

  lemma NoQuoteInQuoteless(s: string)
    requires Quoteless(s) && '\\' !in s
    ensures Plain(s)
  {}

  lemma QuotedCut(a: string, b: string, rest: string)
    requires EscapeSQL(a + "'" + b) == a + "''" + b
    ensures Quoted(a + "'" + b) + rest == "'" + (a + ("''" + (b + ("'" + rest))))
  {
    hide EscapeSQL;
  }

  lemma AccountQuoted(user: string, host: string, tail: string)
    requires EscapeSQL(host) == host
    ensures "'" + user + "'" + ("@" + (Quoted(host) + tail)) == AccountText('\'', user, host, tail)
  {
    hide EscapeSQL;
  }

  lemma QuotedStarts(s: string, rest: string)
    ensures var t := Quoted(s) + rest; t != "" && !IsWord(t[0]) && !IsBlank(t[0]) && t[0] != '@'
  {
    hide EscapeSQL;
  }

  lemma AccountSays(user: string, host: string, hash: string, found: string)
    requires TrimSpace(CreateStmt(user, host, hash)) == CreateStmt(user, host, hash)
    requires FindUserHost(CREATE + (Quoted(user) + ("@" + (Quoted(host) + CreateTail(hash))))) == Some((found, host))
    requires TrimSpace(found) == found != "" && TrimSpace(host) == host != ""
    ensures Account(REGEXES, CreateStmt(user, host, hash)) == Some((found, host))
  {
    hide FindUserHost, TrimSpace, Quoted, CreateTail;
  }

  lemma SingleIsQuote()
    ensures IsQuote('\'')
  {}

  // ----- Exactly which names are read back ----------------------------------

  lemma {:induction false} EscapeCharsKeep(s: string, c: char)
    ensures c in EscapeChars(s) <==> c in s
  {
    if s != "" {
      EscapeCharsKeep(s[1..], c);
      assert s == [s[0]] + s[1..];
      assert c in EscapeChar(s[0]) <==> c == s[0];
    }
  }

  /** Escaping brings no other characters into a text. */
  lemma EscapeKeeps(s: string, c: char)
    ensures c in EscapeSQL(s) <==> c in s
  {
    TwoPassesAreOne(s);
    EscapeCharsKeep(s, c);
  }

  lemma TrimKeepsChar(s: string, c: char)
    requires !IsSpace(c)
    ensures c in TrimSpace(s) <==> c in s
  {
    hide TrimSpace, IsSpace;
    var k, n := TrimIsWithin(s);
    if c in s {
      assert forall x :: 0 <= x < k ==> s[x] == s[..k][x];
      assert forall x :: n <= x < |s| ==> s[x] == s[n..][x - n];
      var i :| 0 <= i < |s| && s[i] == c;
      assert s[k..n][i - k] == c;
    }
  }

  lemma {:induction false} UpToLeaves(q: char, t: string)
    requires UpTo(q, t).Some?
    ensures var (name, rest) := UpTo(q, t).value;
      q !in name && (forall c :: c in name ==> c in t) && |rest| < |t| && rest == t[|t| - |rest|..]
  {
    if t[0] != q { UpToLeaves(q, t[1..]); }
  }

  lemma {:induction false} WordOfLeaves(t: string)
    ensures var (name, rest) := WordOf(t);
      (forall c :: c in name ==> IsWord(c)) && |rest| <= |t| && rest == t[|t| - |rest|..] && (t != "" && IsWord(t[0]) ==> |rest| < |t|)
  {
    if t != "" && IsWord(t[0]) { WordOfLeaves(t[1..]); }
  }

  /** A name is free of the quotes it stands in, or consists of word characters. */
  lemma NameLeaves(t: string)
    requires ReadName(t).Some?
    ensures t != "" && if IsQuote(t[0]) then t[0] !in ReadName(t).value.0 && forall c :: c in ReadName(t).value.0 ==> c in t[1..]
                       else forall c :: c in ReadName(t).value.0 ==> !IsQuote(c)
    ensures var rest := ReadName(t).value.1; |rest| < |t| && rest == t[|t| - |rest|..]
  {
    hide UpTo, WordOf;
    if IsQuote(t[0]) { UpToLeaves(t[0], t[1..]); } else { WordOfLeaves(t); }
  }

  /** Where the host is read. */
  function Second(s: string): string
    requires UserHostHere(s).Some?
  {
    SkipBlanks(SkipBlanks(ReadName(s).value.1)[1..])
  }

  lemma SecondIsBehind(s: string)
    requires UserHostHere(s).Some?
    ensures ReadName(s).Some? && ReadName(Second(s)).Some? && Second(s) != ""
    ensures UserHostHere(s).value == (ReadName(s).value.0, ReadName(Second(s)).value.0)
    ensures |Second(s)| < |s| && Second(s) == s[|s| - |Second(s)|..]
  {
    hide ReadName, SkipBlanks;
    NameLeaves(s);
    NameLeaves(Second(s));
  }

  lemma {:induction false} FoundAt(t: string) returns (i: nat)
    requires FindUserHost(t).Some?
    ensures i <= |t| && UserHostHere(t[i..]) == FindUserHost(t)
  {
    hide UserHostHere;
    if UserHostHere(t).Some? {
      i := 0;
      assert t[0..] == t;
    } else {
      i := FoundAt(t[1..]);
      assert t[1..][i..] == t[i + 1..];
      i := i + 1;
    }
  }

  predicate IsOther(c: char) { c == '"' || c == '`' }

  lemma Kinds(c: char)
    ensures IsQuote(c) <==> c == '\'' || IsOther(c)
    ensures IsOther(c) ==> !IsSpace(c)
    ensures !IsSpace('\'')
  {}

  /** The statement after the user name. */
  function Back(host: string, tail: string): string { "'@'" + (host + ("'" + tail)) }

  lemma InHost(host: string, tail: string, q: char, j: nat)
    requires j < |Back(host, tail)| && Back(host, tail)[j] == q && IsOther(q) && q !in tail
    ensures 3 <= j < 3 + |host| && q in host
  {
    var r := Back(host, tail);
    assert forall x :: 0 <= x < |tail| ==> r[4 + |host| + x] == tail[x];
    assert r[..3] == "'@'" && r[3 + |host|] == '\'';
    assert forall x :: 0 <= x < |host| ==> r[3 + x] == host[x];
  }

  /** Double quotes and backticks are in a host name exactly if they are in its escaped form, and not behind it. */
  ghost predicate HostKnown(host: string, h: string, tail: string) {
    forall c :: c == '\'' || IsOther(c) ==> (c in host <==> c in h) && (IsOther(c) ==> c !in tail)
  }

  /** What is read behind one of these characters in the host name, taken for the host, does not have it. */
  lemma BehindOther(host: string, tail: string, h: string, q: char, j: nat, k: nat)
    requires var r := Back(host, tail); j + k < |r| && k > 0 && r[j] == q && IsOther(q) && ReadName(r[j + k..]).Some?
    requires h == TrimSpace(ReadName(Back(host, tail)[j + k..]).value.0) && HostKnown(host, h, tail)
    ensures q !in ReadName(Back(host, tail)[j + k..]).value.0
  {
    hide ReadName, TrimSpace;
    var r := Back(host, tail);
    var q2, s := r[j + k], r[j + k..];
    var n := ReadName(s).value.0;
    InHost(host, tail, q, j);
    NameLeaves(s);
    Kinds(q2); Kinds(q); Kinds('\'');
    if IsOther(q2) {
      if q2 != q {
        TrimKeepsChar(n, q2);
        InHost(host, tail, q2, j + k);
      }
    } else if q2 == '\'' {
      TrimKeepsChar(n, '\'');
      BehindHost(host, tail, j + k);
    }
  }

  lemma BehindHost(host: string, tail: string, j: nat)
    requires 3 <= j < |Back(host, tail)| && Back(host, tail)[j] == '\'' && '\'' !in host
    ensures forall c :: c in Back(host, tail)[j..][1..] ==> c in tail
  {
    var r := Back(host, tail);
    assert forall x :: 0 <= x < |host| ==> r[3 + x] == host[x];
    assert r[j..][1..] == tail[j - 3 - |host|..];
  }

  /** The account found here. */
  predicate Reads(s: string, u: string, h: string) {
    UserHostHere(s).Some? && TrimSpace(UserHostHere(s).value.0) == u && TrimSpace(UserHostHere(s).value.1) == h
  }

  /** The account is not read from a double quote or backtick on. */
  lemma NotFromOther(p: string, u: string, h: string, host: string, tail: string, i: nat)
    requires i <= |p + Back(host, tail)| && Reads((p + Back(host, tail))[i..], u, h)
    requires HostKnown(host, h, tail) && forall c :: IsOther(c) && c in p ==> c in u
    ensures i < |p + Back(host, tail)| && !IsOther((p + Back(host, tail))[i])
  {
    hide UserHostHere, TrimSpace, ReadName, Second;
    var r := Back(host, tail);
    var s := (p + r)[i..];
    SecondIsBehind(s);
    var q, k := s[0], |s| - |Second(s)|;
    if IsOther(q) {
      var m, n := ReadName(s).value.0, ReadName(Second(s)).value.0;
      NameLeaves(s);
      Kinds(q);
      TrimKeepsChar(m, q);
      TrimKeepsChar(n, q);
      assert i >= |p|;
      var j := i - |p|;
      assert s == r[j..] && Second(s) == r[j + k..];
      InHost(host, tail, q, j);
      BehindOther(host, tail, h, q, j, k);
    }
  }

  lemma NotInBack(host: string, tail: string, q: char)
    requires IsOther(q) && q !in host && q !in tail
    ensures q !in Back(host, tail)
  {}

  lemma FrontSecond(eu: string, host: string, tail: string)
    requires '\'' !in eu && eu != ""
    ensures var s := "'" + eu + Back(host, tail); UserHostHere(s).Some? ==> Second(s)[0] == '\''
  {
    hide UserHostHere, ReadName;
    var second := "'" + (host + ("'" + tail));
    assert "'" + eu + Back(host, tail) == "'" + eu + "'" + ("@" + second);
    NameInQuotes('\'', eu, "@" + second);
    OneBlank("@" + second);
    OneBlank(second);
    assert ("@" + second)[1..] == second;
  }

  /** Nor is the host. */
  lemma HostNotFromOther(eu: string, u: string, h: string, host: string, tail: string, i: nat)
    requires var t := CREATE + ("'" + eu) + Back(host, tail); i < |t| && !IsOther(t[i]) && Reads(t[i..], u, h)
    requires HostKnown(host, h, tail) && '\'' !in eu && eu != "" && forall c :: IsOther(c) ==> (c in eu <==> c in u)
    ensures var s := (CREATE + ("'" + eu) + Back(host, tail))[i..]; !IsOther(Second(s)[0])
  {
    CreateIsQuoteless();
    hide UserHostHere, TrimSpace, ReadName, Second;
    var p, r := CREATE + ("'" + eu), Back(host, tail);
    var s := (p + r)[i..];
    SecondIsBehind(s);
    var q, k := Second(s)[0], |s| - |Second(s)|;
    if IsOther(q) {
      var m, n := ReadName(s).value.0, ReadName(Second(s)).value.0;
      NameLeaves(s);
      NameLeaves(Second(s));
      Kinds(q); Kinds(s[0]); Kinds('\'');
      TrimKeepsChar(n, q);
      NotInBack(host, tail, q);
      assert (p + r)[i + k] == q;
      assert i + k < |p| && q in p;
      assert q in eu;
      TrimKeepsChar(m, q);
      assert s[0] == '\'';
      assert i == |CREATE|;
      assert s == "'" + eu + r;
      FrontSecond(eu, host, tail);
    }
  }

  lemma StatementText(user: string, host: string, hash: string)
    ensures CreateStmt(user, host, hash) == CREATE + ("'" + EscapeSQL(user)) + Back(EscapeSQL(host), CreateTail(hash))
  {
    hide EscapeSQL, CreateTail;
    StatementParts(CREATE, EscapeSQL(user), EscapeSQL(host), CreateTail(hash));
  }

  lemma StatementParts(create: string, u: string, h: string, tail: string)
    ensures create + ("'" + u + "'" + ("@" + ("'" + h + "'" + tail))) == create + ("'" + u) + Back(h, tail)
  {}

  lemma EscapesKnown(user: string, host: string, hash: string)
    requires '"' !in hash && '`' !in hash
    ensures HostKnown(EscapeSQL(host), host, CreateTail(hash))
    ensures forall c :: IsOther(c) ==> (c in CREATE + ("'" + EscapeSQL(user)) ==> c in user) && (c in EscapeSQL(user) <==> c in user)
  {
    CreateIsQuoteless();
    EscapeKeeps(hash, '"'); EscapeKeeps(hash, '`');
    TailKnown(hash);
    hide EscapeSQL, CreateTail, Quoteless;
    forall c
      ensures (c in EscapeSQL(host) <==> c in host) && (c in EscapeSQL(user) <==> c in user)
    {
      EscapeKeeps(host, c);
      EscapeKeeps(user, c);
    }
    assert Quoteless(CREATE);
    NoOtherIn(CREATE);
  }

  lemma NoOtherIn(s: string)
    requires Quoteless(s)
    ensures forall c :: IsOther(c) ==> c !in s
  {}

  lemma TailKnown(hash: string)
    requires '"' !in EscapeSQL(hash) && '`' !in EscapeSQL(hash)
    ensures forall c :: IsOther(c) ==> c !in CreateTail(hash)
  {
    hide EscapeSQL;
    assert Quoteless(IDENTIFIED) && Quoteless(";");
  }

  lemma EscapeNonempty(s: string)
    requires s != ""
    ensures EscapeSQL(s) != ""
  {
    EscapeKeeps(s, s[0]);
    hide EscapeSQL;
  }

  lemma FoundReads(t: string, i: nat, user: string, host: string)
    requires i <= |t| && FindUserHost(t).Some? && UserHostHere(t[i..]) == FindUserHost(t)
    requires TrimSpace(t) == t && Account(REGEXES, t) == Some((user, host))
    ensures Reads(t[i..], user, host)
  {
    hide FindUserHost, UserHostHere, TrimSpace;
  }

  /** A name that is not read from a double quote or backtick on has no quote. */
  lemma ReadsQuoteless(s: string, u: string, h: string)
    requires s != "" && Reads(s, u, h)
    ensures !IsOther(s[0]) ==> '\'' !in u
    ensures Second(s) != "" && (!IsOther(Second(s)[0]) ==> '\'' !in h)
  {
    hide UserHostHere, TrimSpace, ReadName, Second;
    SecondIsBehind(s);
    NameLeaves(s);
    NameLeaves(Second(s));
    Kinds(s[0]); Kinds(Second(s)[0]); Kinds('\'');
    TrimKeepsChar(ReadName(s).value.0, '\'');
    TrimKeepsChar(ReadName(Second(s)).value.0, '\'');
  }

  /** Names that are read back have no quotes. */
  lemma FoundIsQuoteless(user: string, host: string, hash: string)
    requires user != "" && '"' !in hash && '`' !in hash
    requires Account(REGEXES, CreateStmt(user, host, hash)) == Some((user, host))
    ensures '\'' !in user && '\'' !in host
  {
    hide EscapeSQL, FindUserHost, UserHostHere, TrimSpace, CreateStmt, CreateTail, Second, Reads;
    var eu, eh, tail := EscapeSQL(user), EscapeSQL(host), CreateTail(hash);
    CreateIsTrimmed(user, host, hash);
    StatementText(user, host, hash);
    var t := CREATE + ("'" + eu) + Back(eh, tail);
    var i := FoundAt(t);
    EscapesKnown(user, host, hash);
    var s := t[i..];
    assert Reads(s, user, host) by { FoundReads(t, i, user, host); }
    NotFromOther(CREATE + ("'" + eu), user, host, eh, tail, i);
    ReadsQuoteless(s, user, host);
    EscapeKeeps(user, '\'');
    EscapeNonempty(user);
    HostNotFromOther(eu, user, host, eh, tail, i);
  }

  /** Which names are read back from their own statement: exactly those that need no escaping. */
  lemma NamesReadBackIff(user: string, host: string, hash: string)
    requires user != "" && host != "" && Trimmed(user) && Trimmed(host) && '"' !in hash && '`' !in hash
    ensures Account(REGEXES, CreateStmt(user, host, hash)) == Some((user, host)) <==> Plain(user) && Plain(host)
  {
    hide Account, CreateStmt, Trimmed, REGEXES;
    if Account(REGEXES, CreateStmt(user, host, hash)) == Some((user, host)) { FoundIsQuoteless(user, host, hash); }
    if '\'' !in user && '\'' !in host { BackslashIsDoubled(user, host, hash); }
  }

  // ----- Why the hash matters -----------------------------------------------

  lemma DropQuote(rest: string)
    ensures FindUserHost("''" + rest) == FindUserHost("'" + rest)
  {
    hide FindUserHost, UserHostHere;
    EmptyQuote(rest);
    NextStart("''" + rest);
    assert ("''" + rest)[1..] == "'" + rest;
  }

  /** A name in single quotes that no `@` follows is no account. */
  lemma DropName(s: string, rest: string)
    requires s != "" && '\'' !in s && SkipBlanks(rest) != "" && SkipBlanks(rest)[0] != '@'
    ensures FindUserHost("'" + (s + ("'" + rest))) == FindUserHost(s + ("'" + rest))
  {
    hide FindUserHost, UserHostHere, ReadName, SkipBlanks;
    SingleIsQuote();
    var t := "'" + (s + ("'" + rest));
    assert t == ['\''] + s + ['\''] + rest;
    NameInQuotes('\'', s, rest);
    NoAtBehind(t, s, rest);
    NextStart(t);
    assert t[1..] == s + ("'" + rest);
  }

  const INNER := "\"'" + ("'" + "\"@\"c\"';")

  lemma InnerIsAccount()
    ensures FindUserHost(INNER) == Some(("''", "c"))
  {
    DoubleIsQuote();
    hide FindUserHost;
    AccountIsRead('"', "''", "c", "';");
    assert AccountText('"', "''", "c", "';") == INNER;
  }

  /** Behind the opening quote of the hash the account in it is found. */
  lemma FoundInHash()
    ensures FindUserHost(IDENTIFIED + ("'" + INNER)) == Some(("''", "c"))
  {
    IdentifiedIsQuiet();
    hide FindUserHost, Quoteless;
    QuietIsPassed(IDENTIFIED, "'" + INNER);
    OneBlank("'" + "\"@\"c\"';");
    DropName("\"", "'" + "\"@\"c\"';");
    assert "\"" + ("'" + ("'" + "\"@\"c\"';")) == INNER;
    InnerIsAccount();
  }

  lemma IdentifiedIsQuiet()
    ensures Quoteless(IDENTIFIED) && '@' !in IDENTIFIED && IDENTIFIED != "" && '\'' !in IDENTIFIED
  {}

  lemma BeforeHash()
    ensures FindUserHost("'c'" + (IDENTIFIED + ("'" + INNER))) == FindUserHost(IDENTIFIED + ("'" + INNER))
  {
    IdentifiedIsQuiet();
    SkipsToClause("'" + INNER);
    InnerStarts();
    hide *;
    BeforeQuoted(IDENTIFIED, INNER);
  }

  lemma InnerStarts()
    ensures SkipBlanks(INNER) != "" && SkipBlanks(INNER)[0] != '@'
  {
    OneBlank(INNER);
  }

  lemma BeforeQuoted(between: string, inner: string)
    requires between != "" && '\'' !in between && SkipBlanks(inner) != "" && SkipBlanks(inner)[0] != '@'
    requires var s := SkipBlanks(between + ("'" + inner)); s != "" && s[0] != '@'
    ensures FindUserHost("'c'" + (between + ("'" + inner))) == FindUserHost(between + ("'" + inner))
  {
    OneLetter();
    hide FindUserHost, Quoteless, SkipBlanks;
    var behind := between + ("'" + inner);
    DropName("c", behind);
    assert "'c'" + behind == "'" + ("c" + ("'" + behind));
    QuietIsPassed("c", "'" + behind);
    DropName(between, inner);
  }

  lemma OneLetter()
    ensures Quoteless("c") && '@' !in "c"
  {}

  lemma SkipsToClause(rest: string)
    ensures var s := SkipBlanks(IDENTIFIED + rest); s != "" && s[0] == 'I'
  {
    ClauseText(rest);
    var k := CLAUSE + rest;
    assert k[0] == 'I';
    OneBlank(k);
  }

  /** Five doubled quotes and the name `@` are passed over. */
  lemma BeforeHost(rest: string)
    requires rest != "" && rest[0] == 'c'
    ensures FindUserHost("''''''@'" + rest) == FindUserHost("'" + rest)
  {
    hide FindUserHost, UserHostHere;
    var r := "@'" + rest;
    DropQuote("''''" + r); DropQuote("'''" + r); DropQuote("''" + r); DropQuote("'" + r); DropQuote(r);
    assert "''''''@'" + rest == "''" + ("''''" + r) && "'" + ("''''" + r) == "''" + ("'''" + r);
    assert "'" + ("'''" + r) == "''" + ("''" + r) && "'" + ("''" + r) == "''" + ("'" + r) && "'" + ("'" + r) == "''" + r;
    OneBlank(rest);
    DropName("@", rest);
    assert "'" + r == "'" + ("@" + ("'" + rest)) && "@" + ("'" + rest) == r;
    NoAccountAtAt("'" + rest);
  }

  lemma NoAccountAtAt(rest: string)
    ensures FindUserHost("@" + rest) == FindUserHost(rest)
  {
    AtIsNoName(rest);
    hide FindUserHost, ReadName;
    NextStart("@" + rest);
    assert ("@" + rest)[1..] == rest;
  }

  lemma AtIsNoName(rest: string)
    ensures ReadName("@" + rest).None?
  {
    hide ReadQuote, WordOf;
  }

  lemma MisleadingEscapes()
    ensures EscapeSQL("''") == "''''" && EscapeSQL("c") == "c" && EscapeSQL("\"'\"@\"c\"") == "\"''\"@\"c\""
  {
    hide EscapeSQL;
    TwoQuotes();
    EscapePlain("c") by { LetterIsPlain(); }
    HashParts();
    EscapedQuote("\"", "\"@\"c\"");
  }

  lemma LetterIsPlain()
    ensures Plain("c")
  {}

  lemma TwoQuotes()
    ensures EscapeSQL("''") == "''''"
  {
    TwoPassesAreOne("''");
    hide EscapeSQL;
    assert "''"[1..] == "'" && "'"[1..] == "";
    assert EscapeChars("") == "";
    assert EscapeChars("'") == "''";
  }

  lemma HashParts()
    ensures Plain("\"") && Plain("\"@\"c\"")
    ensures "\"" + "'" + "\"@\"c\"" == "\"'\"@\"c\"" && "\"" + "''" + "\"@\"c\"" == "\"''\"@\"c\""
  {}

  lemma MisleadingText()
    ensures CreateStmt("''", "c", "\"'\"@\"c\"") == CREATE + ("''''''@'" + ("c'" + (IDENTIFIED + ("'" + INNER))))
  {
    MisleadingEscapes();
    hide EscapeSQL;
    assert Quoted("''") == "''''''" && Quoted("c") == "'c'";
    assert Quoted("\"'\"@\"c\"") + ";" == "'" + INNER;
    assert "@" + ("'c'" + (IDENTIFIED + ("'" + INNER))) == "@'" + ("c'" + (IDENTIFIED + ("'" + INNER)));
  }

  /** A hash with an account in it can give back a name that needs escaping. */
  lemma HashMisleads()
    ensures Account(REGEXES, CreateStmt("''", "c", "\"'\"@\"c\"")) == Some(("''", "c")) && !Plain("''")
  {
    hide *;
    var behind := "c'" + (IDENTIFIED + ("'" + INNER));
    MisleadingText();
    CreateWords();
    QuietIsPassed(CREATE, "''''''@'" + behind) by { StartsQuoted(behind); }
    BeforeHost(behind) by { StartsQuoted(behind); }
    HostText();
    BeforeHash();
    FoundInHash();
    CreateIsTrimmed("''", "c", "\"'\"@\"c\"");
    MisleadingAccount();
  }

  lemma StartsQuoted(behind: string)
    ensures var t := "''''''@'" + behind; t != "" && !IsWord(t[0]) && !IsBlank(t[0]) && t[0] != '@'
    ensures behind == "c'" + (IDENTIFIED + ("'" + INNER)) ==> behind != "" && behind[0] == 'c'
  {}

  lemma HostText()
    ensures "'" + ("c'" + (IDENTIFIED + ("'" + INNER))) == "'c'" + (IDENTIFIED + ("'" + INNER))
  {}

  lemma MisleadingAccount()
    requires var s := CreateStmt("''", "c", "\"'\"@\"c\""); TrimSpace(s) == s && FindUserHost(s) == Some(("''", "c"))
    ensures Account(REGEXES, CreateStmt("''", "c", "\"'\"@\"c\"")) == Some(("''", "c")) && !Plain("''")
  {
    hide TrimSpace, FindUserHost, CreateStmt;
    TrimSame("''"); TrimSame("c");
    assert "''"[0] == '\'';
  }
}
