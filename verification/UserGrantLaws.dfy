/** What the regular expressions find in printed grants: the account and database of the original, and no
    password clause any more. */
module UserGrantLaws {
  import opened Text
  import opened UserRecords
  import opened UserBlocks
  import opened UserNormalForm
  import opened UserPatterns
  import opened UserPatternLaws

  // ----- More text behind a match -------------------------------------------

  lemma {:induction false} WordGrows(w: string, t: string, more: string)
    requires WordHere(w, t).Some?
    ensures WordHere(w, t + more) == Some(WordHere(w, t).value + more)
    decreases |w|
  {
    if w != "" {
      assert (t + more)[1..] == t[1..] + more;
      WordGrows(w[1..], t[1..], more);
    }
  }

  lemma {:induction false} BlanksGrow(t: string, more: string)
    requires SkipBlanks(t) != ""
    ensures SkipBlanks(t + more) == SkipBlanks(t) + more
  {
    if t != "" && IsBlank(t[0]) {
      assert (t + more)[1..] == t[1..] + more;
      BlanksGrow(t[1..], more);
    }
  }

  lemma AfterGrows(w: string, t: string, more: string)
    requires After(w, t).Some? && After(w, t).value != ""
    ensures After(w, t + more) == Some(After(w, t).value + more)
  {
    hide WordHere, SkipBlanks;
    WordGrows(w, t, more);
    BlanksGrow(WordHere(w, t).value, more);
  }

  lemma {:induction false} UpToGrows(q: char, t: string, more: string)
    requires UpTo(q, t).Some?
    ensures UpTo(q, t + more) == Some((UpTo(q, t).value.0, UpTo(q, t).value.1 + more))
  {
    assert (t + more)[1..] == t[1..] + more;
    if t[0] != q { UpToGrows(q, t[1..], more); }
  }

  lemma QuoteGrows(t: string, more: string)
    requires ReadQuote(t).Some?
    ensures ReadQuote(t + more).Some?
  {
    hide UpTo;
    assert (t + more)[1..] == t[1..] + more;
    UpToGrows(t[0], t[1..], more);
  }

  lemma ClauseGrows(t: string, more: string)
    requires ClauseHere(t).Some?
    ensures ClauseHere(t + more).Some?
  {
    var a := After("IDENTIFIED", t).value;
    var b := After("BY", a).value;
    var c := After("PASSWORD", b).value;
    assert a != "" && b != "" && c != "";
    hide After, ReadQuote;
    AfterGrows("IDENTIFIED", t, more);
    AfterGrows("BY", a, more);
    AfterGrows("PASSWORD", b, more);
    QuoteGrows(c, more);
  }

  // ----- A semicolon behind the text ----------------------------------------

  function Closed(r: Option<(string, string)>): Option<(string, string)> {
    if r.Some? then Some((r.value.0, r.value.1 + ";")) else None
  }

  lemma ClosedWord(w: string, t: string)
    requires forall i :: 0 <= i < |w| ==> !Folds(';', w[i])
    ensures WordHere(w, t + ";") == if WordHere(w, t).Some? then Some(WordHere(w, t).value + ";") else None
  {
    hide WordHere;
    if WordHere(w, t).Some? { WordGrows(w, t, ";"); } else { WordStops(w, t, ";"); }
  }

  lemma {:induction false} ClosedBlanks(t: string)
    ensures SkipBlanks(t + ";") == SkipBlanks(t) + ";"
  {
    var u := t + ";";
    if t == "" {
      assert u == ";";
      assert !IsBlank(u[0]);
    } else {
      hide IsBlank;
      assert u[0] == t[0] && u[1..] == t[1..] + ";";
      ClosedBlanks(t[1..]);
    }
  }

  lemma ClosedAfter(w: string, t: string)
    requires forall i :: 0 <= i < |w| ==> !Folds(';', w[i])
    ensures After(w, t + ";") == if After(w, t).Some? then Some(After(w, t).value + ";") else None
  {
    hide WordHere, SkipBlanks;
    ClosedWord(w, t);
    if WordHere(w, t).Some? { ClosedBlanks(WordHere(w, t).value); }
  }

  lemma {:induction false} ClosedUpTo(q: char, t: string)
    requires q != ';'
    ensures UpTo(q, t + ";") == Closed(UpTo(q, t))
  {
    if t == "" {
      assert t + ";" == ";" && ";"[1..] == "";
    } else {
      assert (t + ";")[1..] == t[1..] + ";";
      ClosedUpTo(q, t[1..]);
    }
  }

  lemma {:induction false} ClosedWordOf(t: string)
    ensures WordOf(t + ";") == (WordOf(t).0, WordOf(t).1 + ";")
  {
    if t != "" {
      assert (t + ";")[1..] == t[1..] + ";";
      ClosedWordOf(t[1..]);
    }
  }

  lemma ClosedQuote(t: string)
    ensures ReadQuote(t + ";") == Closed(ReadQuote(t))
  {
    hide UpTo;
    if t != "" && IsQuote(t[0]) {
      assert (t + ";")[1..] == t[1..] + ";";
      ClosedUpTo(t[0], t[1..]);
    }
  }

  lemma ClosedName(t: string)
    ensures ReadName(t + ";") == Closed(ReadName(t))
  {
    hide ReadQuote, WordOf;
    ClosedQuote(t);
    ClosedWordOf(t);
  }

  lemma ClosedHere(t: string)
    ensures UserHostHere(t + ";") == UserHostHere(t)
  {
    hide ReadName, SkipBlanks;
    ClosedName(t);
    var user := ReadName(t);
    if user.Some? {
      ClosedBlanks(user.value.1);
      var at := SkipBlanks(user.value.1);
      if at != "" {
        assert (at + ";")[1..] == at[1..] + ";";
        ClosedBlanks(at[1..]);
        ClosedName(SkipBlanks(at[1..]));
      }
    }
  }

  lemma {:induction false} ClosedAccount(t: string)
    ensures FindUserHost(t + ";") == FindUserHost(t)
  {
    hide UserHostHere;
    ClosedHere(t);
    if t == "" {
      ClosedHere("");
      assert t + ";" == ";" && ";"[1..] == "";
    } else {
      assert (t + ";")[1..] == t[1..] + ";";
      ClosedAccount(t[1..]);
    }
  }

  lemma ClosedDotStar(t: string)
    ensures DotStar(t + ";") == DotStar(t)
  {
    hide SkipBlanks;
    ClosedBlanks(t);
    var dot := SkipBlanks(t);
    if dot != "" {
      assert (dot + ";")[1..] == dot[1..] + ";";
      ClosedBlanks(dot[1..]);
    }
  }

  lemma ClosedOnDbHere(t: string)
    ensures OnDbHere(t + ";") == OnDbHere(t)
  {
    hide After, ReadName, DotStar;
    ClosedAfter("ON", t);
    var a := After("ON", t);
    if a.Some? {
      ClosedName(a.value);
      var name := ReadName(a.value);
      if name.Some? { ClosedDotStar(name.value.1); }
    }
  }

  lemma {:induction false} ClosedOnDb(t: string)
    ensures FindOnDb(t + ";") == FindOnDb(t)
  {
    hide OnDbHere;
    ClosedOnDbHere(t);
    if t == "" {
      ClosedOnDbHere("");
      assert t + ";" == ";" && ";"[1..] == "";
    } else {
      assert (t + ";")[1..] == t[1..] + ";";
      ClosedOnDb(t[1..]);
    }
  }

  lemma ClosedClause(t: string)
    requires ClauseHere(t).None?
    ensures ClauseHere(t + ";").None?
  {
    hide After, ReadQuote;
    ClosedAfter("IDENTIFIED", t);
    var a := After("IDENTIFIED", t);
    if a.Some? {
      ClosedAfter("BY", a.value);
      var b := After("BY", a.value);
      if b.Some? {
        ClosedAfter("PASSWORD", b.value);
        var c := After("PASSWORD", b.value);
        if c.Some? { ClosedQuote(c.value); }
      }
    }
  }

  lemma ClosedKind(t: string)
    ensures KindHere(t + ";") == KindHere(t)
  {
    hide WordHere;
    ClosedWord("CREATE USER ", t);
    ClosedWord("GRANT ", t);
  }

  // ----- Grants -------------------------------------------------------------

  /** The text has no password clause. */
  predicate Clauseless(t: string) { forall i :: 0 <= i <= |t| ==> ClauseHere(t[i..]).None? }

  lemma ClauselessRest(t: string)
    requires Clauseless(t) && t != ""
    ensures Clauseless(t[1..])
  {
    hide ClauseHere;
    forall i | 0 <= i <= |t[1..]|
      ensures ClauseHere(t[1..][i..]).None?
    {
      assert t[1..][i..] == t[i + 1..];
    }
  }

  lemma {:induction false} NoClauseFound(t: string)
    requires Clauseless(t)
    ensures FindClause(t) == None && Strip(t) == t
  {
    hide ClauseHere;
    assert t[0..] == t;
    if t != "" {
      var blanks := |t| - |SkipBlanks(t)|;
      assert ClauseHere(t[blanks..]).None?;
      ClauselessRest(t);
      NoClauseFound(t[1..]);
      assert [t[0]] + t[1..] == t;
    }
  }

  lemma ClosedClauseless(t: string)
    requires Clauseless(t)
    ensures Clauseless(t + ";")
  {
    hide ClauseHere;
    forall i | 0 <= i <= |t + ";"|
      ensures ClauseHere((t + ";")[i..]).None?
    {
      if i <= |t| {
        assert (t + ";")[i..] == t[i..] + ";";
        ClosedClause(t[i..]);
      } else {
        assert (t + ";")[i..] == t[|t|..];
      }
    }
  }

  lemma TrimmedClauseless(raw: string)
    requires Clauseless(raw)
    ensures Clauseless(TrimSpace(raw)) && (OneLine(raw) ==> OneLine(TrimSpace(raw)))
  {
    hide ClauseHere, TrimSpace;
    var a, b := TrimIsWithin(raw);
    var t := TrimSpace(raw);
    forall i | 0 <= i <= |t|
      ensures ClauseHere(t[i..]).None?
    {
      assert raw[a + i..] == t[i..] + raw[b..];
      if ClauseHere(t[i..]).Some? { ClauseGrows(t[i..], raw[b..]); }
    }
  }

  /** The statement printed for a grant without a clause: the trimmed line, closed by a semicolon. */
  lemma ClauselessStmt(raw: string)
    requires Clauseless(raw) && TrimSpace(raw) != ""
    ensures var t := TrimSpace(raw); var s := GrantStmt(REGEXES, raw);
      (s == t || s == t + ";") && HasSuffix(s, ";") && TrimSpace(s) == s && Clauseless(s) && (OneLine(raw) ==> OneLine(s))
  {
    hide ClauseHere, TrimSpace, Strip;
    NoClauseFound(raw);
    TrimmedClauseless(raw);
    var t := TrimSpace(raw);
    TrimIsTrimmed(raw);
    TrimSame(t);
    TrimSame(t + ";") by { assert (t + ";")[0] == t[0]; }
    ClosedClauseless(t);
    assert (t + ";")[|t|..] == ";";
  }

  /** A semicolon at its end makes no difference to what is found in a trimmed text. */
  lemma ClosedSays(raw: string, s: string)
    requires var t := TrimSpace(raw); (s == t || s == t + ";") && TrimSpace(s) == s && t != ""
    ensures KindOf(REGEXES, s) == KindOf(REGEXES, raw) && Account(REGEXES, s) == Account(REGEXES, raw)
    ensures Database(REGEXES, s) == Database(REGEXES, raw)
  {
    hide FindUserHost, FindOnDb, FindClause, KindHere, Strip, TrimSpace;
    var t := TrimSpace(raw);
    ClosedAccount(t);
    ClosedOnDb(t);
    ClosedKind(t);
  }

  lemma ClauselessAgain(s: string)
    requires Clauseless(s) && TrimSpace(s) == s && HasSuffix(s, ";")
    ensures GrantStmt(REGEXES, s) == s && Password(REGEXES, s) == ""
  {
    hide FindUserHost, FindOnDb, FindClause, KindHere, Strip, TrimSpace, Clauseless;
    NoClauseFound(s);
  }

  /** Of a grant without a password clause, the patterns find in the printed statement exactly what they found
      in the dump. */
  lemma GrantIsReread(raw: string)
    requires OneLine(raw) && Clauseless(raw) && KindOf(REGEXES, raw) == Grant
    ensures GrantRereads(REGEXES, raw, Database(REGEXES, raw))
  {
    hide *;
    KindNeedsText(REGEXES, raw);
    ClauselessStmt(raw);
    var s := GrantStmt(REGEXES, raw);
    ClosedSays(raw, s);
    ClauselessAgain(s);
    SameFound(REGEXES, raw, s);
  }

  lemma KindNeedsText(p: Patterns, raw: string)
    requires KindOf(p, raw) != Other
    ensures TrimSpace(raw) != ""
  {}

  lemma SameFound(p: Patterns, raw: string, s: string)
    requires s == GrantStmt(p, raw) && HasSuffix(s, ";") && OneLine(s)
    requires KindOf(p, s) == Grant && Account(p, s) == Account(p, raw) && Database(p, s) == Database(p, raw)
    requires GrantStmt(p, s) == s && Password(p, s) == ""
    ensures GrantRereads(p, raw, Database(p, raw))
  {
    hide KindOf, Account, Database, Password, GrantStmt, OneLine;
  }

  /** A word is not found across a character none of its letters stands for. */
  lemma {:induction false} WordStops(w: string, s: string, rest: string)
    requires WordHere(w, s).None? && rest != "" && forall i :: 0 <= i < |w| ==> !Folds(rest[0], w[i])
    ensures WordHere(w, s + rest).None?
    decreases |w|
  {
    if s == "" {
      assert s + rest == rest;
    } else if Folds(s[0], w[0]) {
      assert (s + rest)[1..] == s[1..] + rest;
      WordStops(w[1..], s[1..], rest);
    } else {
      assert (s + rest)[0] == s[0];
    }
  }

  // ----- Which grants are read back -----------------------------------------

  /** A grant without its password clauses. */
  function Bared(raw: string): string { TrimSpace(Strip(raw)) }

  /** Without its clauses the line is still a grant of the same account on the same database, and has no clause left. */
  predicate SameBared(raw: string) {
    var t := Bared(raw);
    && KindOf(REGEXES, t) == Grant && Account(REGEXES, t) == Account(REGEXES, raw)
    && Database(REGEXES, t) == Database(REGEXES, raw) && Clauseless(t)
  }

  lemma {:induction false} StripLeaves(t: string)
    ensures forall c :: c in Strip(t) ==> c in t
    decreases |t|
  {
    if t != "" {
      hide Strip, ClauseHere;
      StripStep(t);
      var c := ClauseHere(SkipBlanks(t));
      if c.Some? {
        ClauseLeaves(SkipBlanks(t));
        StripLeaves(c.value.1);
      } else {
        StripLeaves(t[1..]);
      }
    }
  }

  lemma {:induction false} UpToLeaves(q: char, t: string)
    requires UpTo(q, t).Some?
    ensures forall c :: c in UpTo(q, t).value.1 ==> c in t
  {
    if t[0] != q { UpToLeaves(q, t[1..]); }
  }

  lemma ClauseLeaves(t: string)
    requires ClauseHere(t).Some?
    ensures |ClauseHere(t).value.1| + 2 <= |t| && forall c :: c in ClauseHere(t).value.1 ==> c in t
  {
    hide After, UpTo;
    var a := After("IDENTIFIED", t).value;
    var b := After("BY", a).value;
    var c := After("PASSWORD", b).value;
    AfterLeaves("IDENTIFIED", t);
    AfterLeaves("BY", a);
    AfterLeaves("PASSWORD", b);
    UpToLeaves(c[0], c[1..]);
  }

  /** Stripping makes a text shorter exactly where it has a clause. */
  lemma {:induction false} StripShrinks(t: string)
    ensures |Strip(t)| <= |t| && (!Clauseless(t) ==> |Strip(t)| + 2 <= |t|)
    decreases |t|
  {
    if t == "" {
      NoClauseInNothing();
    } else {
      hide Strip, ClauseHere, SkipBlanks, Clauseless;
      StripStep(t);
      var c := ClauseHere(SkipBlanks(t));
      if c.Some? {
        ClauseLeaves(SkipBlanks(t));
        StripShrinks(c.value.1);
      } else {
        StripShrinks(t[1..]);
        if Clauseless(t[1..]) { ClausesBehind(t); }
      }
    }
  }

  lemma NoClauseInNothing()
    ensures Clauseless("") && Strip("") == ""
  {}

  /** A text that does not begin with a clause has none if the rest has none. */
  lemma ClausesBehind(t: string)
    requires t != "" && ClauseHere(SkipBlanks(t)).None? && Clauseless(t[1..])
    ensures Clauseless(t)
  {
    ClauseNeedsLetter(t);
    hide ClauseHere, SkipBlanks;
    forall i | 0 <= i <= |t|
      ensures ClauseHere(t[i..]).None?
    {
      if i == 0 { assert t[0..] == t; } else { assert t[i..] == t[1..][i - 1..]; }
    }
  }

  lemma ClauseNeedsLetter(t: string)
    ensures ClauseHere(t).Some? ==> SkipBlanks(t) == t
  {}

  lemma BaredIsLine(raw: string)
    ensures TrimSpace(Bared(raw)) == Bared(raw) && (OneLine(raw) ==> OneLine(Bared(raw)))
  {
    hide Strip, TrimSpace;
    StripLeaves(raw);
    var k, n := TrimIsWithin(Strip(raw));
    TrimIsTrimmed(Strip(raw));
    TrimSame(Bared(raw));
  }

  lemma BaredIsReread(raw: string)
    requires OneLine(raw) && SameBared(raw)
    ensures GrantRereads(REGEXES, raw, Database(REGEXES, raw))
  {
    var t := Bared(raw);
    assert KindOf(REGEXES, t) == Grant && Clauseless(t) && Account(REGEXES, t) == Account(REGEXES, raw);
    assert Database(REGEXES, t) == Database(REGEXES, raw) && t == TrimSpace(Strip(raw));
    hide *;
    BaredIsLine(raw);
    NoClauseFound(t);
    GrantIsReread(t);
    PrintedSame(raw, t, Database(REGEXES, raw));
  }

  lemma PrintedSame(raw: string, t: string, db: string)
    requires t == TrimSpace(Strip(raw)) && TrimSpace(t) == t && Strip(t) == t && GrantRereads(REGEXES, t, db)
    requires Account(REGEXES, t) == Account(REGEXES, raw)
    ensures GrantRereads(REGEXES, raw, db)
  {
    hide KindOf, Account, Database, Password, OneLine, TrimSpace, Strip;
  }

  /** The printed statement, if it is not empty, is the bared line, closed by a semicolon. */
  lemma PrintedIsBared(raw: string)
    requires GrantStmt(REGEXES, raw) != ""
    ensures var t, s := Bared(raw), GrantStmt(REGEXES, raw);
      t != "" && TrimSpace(t) == t && (s == t || s == t + ";") && TrimSpace(s) == s
  {
    hide TrimSpace, Strip;
    var t := Bared(raw);
    TrimIsTrimmed(Strip(raw));
    TrimSame(t);
    TrimSame(t + ";") by { assert t != "" ==> (t + ";")[0] == t[0]; }
  }

  lemma PrintedShrinks(s: string)
    ensures |GrantStmt(REGEXES, s)| <= |Strip(s)| + 1
  {
    hide TrimSpace, Strip;
    var k, n := TrimIsWithin(Strip(s));
  }

  lemma OpenClause(t: string)
    requires Clauseless(t + ";")
    ensures Clauseless(t)
  {
    hide ClauseHere;
    forall i | 0 <= i <= |t|
      ensures ClauseHere(t[i..]).None?
    {
      assert (t + ";")[i..] == t[i..] + ";";
      if ClauseHere(t[i..]).Some? { ClauseGrows(t[i..], ";"); }
    }
  }

  lemma RereadIsBared(raw: string)
    requires GrantRereads(REGEXES, raw, Database(REGEXES, raw))
    ensures SameBared(raw)
  {
    hide TrimSpace, Strip, KindOf, Account, Database, Password, GrantStmt, Clauseless, Bared;
    var t, s := Bared(raw), GrantStmt(REGEXES, raw);
    PrintedIsBared(raw);
    ClosedSays(t, s);
    StripShrinks(s);
    PrintedShrinks(s);
    if s != t { OpenClause(t); }
  }

  /** The patterns find in the printed statement of a grant what they found in the dump, and nothing more to
      strip, exactly if the grant is the same without its clauses. */
  lemma GrantRereadsIff(raw: string)
    requires OneLine(raw)
    ensures GrantRereads(REGEXES, raw, Database(REGEXES, raw)) <==> SameBared(raw)
  {
    hide GrantRereads, SameBared;
    if SameBared(raw) { BaredIsReread(raw); }
    if GrantRereads(REGEXES, raw, Database(REGEXES, raw)) { RereadIsBared(raw); }
  }

  /** A grant without a clause is one of these. */
  lemma ClauselessIsSame(raw: string)
    requires OneLine(raw) && Clauseless(raw) && KindOf(REGEXES, raw) == Grant
    ensures SameBared(raw)
  {
    hide *;
    GrantIsReread(raw);
    RereadIsBared(raw);
  }

  // ----- Stripping a clause -------------------------------------------------

  /** A password clause with the blank before it. */
  function Clause(q: char, hash: string, tail: string): string { " " + (CLAUSE + ([q] + hash + [q] + tail)) }

  /** A word begun in `y` and followed by blanks ends in `y`, or exactly at its end. */
  lemma AfterOrEnds(w: string, y: string, b: string)
    requires Capitals(w) && w != "" && y != "" && !IsBlank(y[|y| - 1]) && b != "" && !IsLetter(b[0])
    requires After(w, y + b).Some?
    ensures var r := After(w, y);
      || (r.Some? && r.value != "" && After(w, y + b) == Some(r.value + b) && r.value[|r.value| - 1] == y[|y| - 1])
      || After(w, y + b) == Some(SkipBlanks(b))
  {
    hide WordHere, SkipBlanks;
    WordAcross(w, y, b);
    var r := WordHere(w, y).value;
    assert "" + b == b;
    if r != "" { BlanksStop(r, b); }
  }

  lemma NoSecondClause(q: char, hash: string, tail: string)
    ensures var b := Clause(q, hash, tail); var k := SkipBlanks(b);
      b != "" && !IsLetter(b[0]) && k == b[1..] && k != "" && !IsQuote(k[0]) && After("BY", k).None? && After("PASSWORD", k).None?
  {
    var k := CLAUSE + ([q] + hash + [q] + tail);
    assert k[0] == 'I';
    OneBlank(k);
    assert Clause(q, hash, tail)[1..] == k;
  }

  lemma CapitalWords()
    ensures Capitals("IDENTIFIED") && Capitals("BY") && Capitals("PASSWORD")
  {}

  /** Before a clause, none is opened that goes on into it. */
  lemma OpeningBeforeClause(y: string, q: char, hash: string, tail: string)
    requires y != "" && !IsBlank(y[|y| - 1]) && Opening(y + Clause(q, hash, tail))
    ensures Opening(y)
  {
    NoSecondClause(q, hash, tail);
    CapitalWords();
    hide After, Clause, SkipBlanks, Capitals;
    var b := Clause(q, hash, tail);
    AfterOrEnds("IDENTIFIED", y, b);
    var a := After("IDENTIFIED", y).value;
    AfterOrEnds("BY", a, b);
    var c := After("BY", a).value;
    AfterOrEnds("PASSWORD", c, b);
  }

  lemma StripStep(t: string)
    requires t != ""
    ensures var c := ClauseHere(SkipBlanks(t)); Strip(t) == if c.Some? then Strip(c.value.1) else [t[0]] + Strip(t[1..])
  {
    hide ClauseHere;
  }

  lemma NoClauseBefore(a: string, q: char, hash: string, tail: string)
    requires Unopened(a) && a != "" && !IsBlank(a[|a| - 1])
    ensures ClauseHere(SkipBlanks(a + Clause(q, hash, tail))).None?
  {
    hide ClauseHere, Opening, SkipBlanks, Clause;
    var k := Clause(q, hash, tail);
    BlanksStop(a, k);
    var y := SkipBlanks(a);
    assert y == a[|a| - |y|..];
    if ClauseHere(y + k).Some? {
      ClauseOpens(y + k);
      OpeningBeforeClause(y, q, hash, tail);
    }
  }

  lemma ClauseHereStripped(q: char, hash: string, tail: string)
    requires IsQuote(q) && q !in hash
    ensures Strip(Clause(q, hash, tail)) == Strip(tail)
  {
    hide ClauseHere, SkipBlanks, Strip;
    var k := CLAUSE + ([q] + hash + [q] + tail);
    assert k[0] == 'I';
    OneBlank(k);
    ClauseIsRead(q, hash, tail);
    StripStep(" " + k);
  }

  /** A clause is taken out with the blank before it, and nothing else, behind any text that opens none. */
  lemma {:induction false} ClauseIsStripped(a: string, q: char, hash: string, tail: string)
    requires Unopened(a) && (a == "" || !IsBlank(a[|a| - 1])) && IsQuote(q) && q !in hash
    ensures Strip(a + Clause(q, hash, tail)) == a + Strip(tail)
    decreases |a|
  {
    hide ClauseHere, Unopened, SkipBlanks, Strip, Clause;
    var k := Clause(q, hash, tail);
    var t := a + k;
    if a == "" {
      ClauseHereStripped(q, hash, tail);
      assert t == k && a + Strip(tail) == Strip(tail);
    } else {
      StripStep(t);
      NoClauseBefore(a, q, hash, tail);
      assert t[0] == a[0] && t[1..] == a[1..] + k;
      UnopenedRest(a);
      ClauseIsStripped(a[1..], q, hash, tail);
      Assoc([a[0]], a[1..], Strip(tail));
      assert [a[0]] + a[1..] == a;
    }
  }

  /** Behind such a text a clause is found, and read as its hash. */
  lemma {:induction false} ClauseIsFoundBehind(a: string, q: char, hash: string, tail: string)
    requires Unopened(a) && (a == "" || !IsBlank(a[|a| - 1])) && IsQuote(q) && q !in hash
    ensures FindClause(a + Clause(q, hash, tail)) == Some(hash)
    decreases |a|
  {
    var k := Clause(q, hash, tail);
    hide ClauseHere, Opening, Clause;
    var t := a + k;
    if a == "" {
      ClauseAtBlank(q, hash, tail);
      assert t == k;
    } else {
      assert a[0..] == a;
      if ClauseHere(t).Some? {
        ClauseOpens(t);
        OpeningBeforeClause(a, q, hash, tail);
      }
      assert t[1..] == a[1..] + k;
      UnopenedRest(a);
      ClauseIsFoundBehind(a[1..], q, hash, tail);
    }
  }

  lemma ClauseAtBlank(q: char, hash: string, tail: string)
    requires IsQuote(q) && q !in hash
    ensures FindClause(Clause(q, hash, tail)) == Some(hash)
  {
    hide FindClause;
    NothingAtBlank(CLAUSE + ([q] + hash + [q] + tail));
    ClauseIsFound(q, hash, tail);
  }

  lemma UnopenedIsClauseless(t: string)
    requires Unopened(t)
    ensures Clauseless(t)
  {
    hide Opening, ClauseHere;
    forall i | 0 <= i <= |t|
      ensures ClauseHere(t[i..]).None?
    {
      if ClauseHere(t[i..]).Some? { ClauseOpens(t[i..]); }
    }
  }

  /** Behind text that opens no clause and does not go on with one, there are just the clauses of the rest. */
  lemma ClauselessBehind(a: string, b: string)
    requires Unopened(a) && (a == "" || Joins(a[|a| - 1], b))
    ensures Clauseless(a + b) <==> Clauseless(b)
  {
    hide Opening, Joins, ClauseHere;
    var t := a + b;
    if Clauseless(b) {
      forall i | 0 <= i <= |t|
        ensures ClauseHere(t[i..]).None?
      {
        if i < |a| {
          assert t[i..] == a[i..] + b;
          if ClauseHere(t[i..]).Some? {
            ClauseOpens(t[i..]);
            OpeningAcross(a[i..], b);
          }
        } else {
          assert t[i..] == b[i - |a|..];
        }
      }
    }
    if Clauseless(t) {
      forall i | 0 <= i <= |b|
        ensures ClauseHere(b[i..]).None?
      {
        assert t[|a| + i..] == b[i..];
      }
    }
  }
}
