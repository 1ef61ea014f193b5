/** The crontab rewriting of internal/schedule/schedule.go: our entry is the line with the
    marker. The same loop runs on the user's crontab and on the system file. */
module Crontab {
  import opened LineScanner
  import opened Text

  const MARKER := "mysqlbackup-schedule"

  // ----- The marker ---------------------------------------------------------

  predicate Marked(line: string) { Contains(line, MARKER) }

  function Unmarked(lines: seq<string>): seq<string> {
    if lines == [] then []
    else (if Marked(lines[0]) then [] else [lines[0]]) + Unmarked(lines[1..])
  }

  function Count(lines: seq<string>): nat {
    if lines == [] then 0 else (if Marked(lines[0]) then 1 else 0) + Count(lines[1..])
  }

  lemma {:induction false} UnmarkedConcat(a: seq<string>, b: seq<string>)
    ensures Unmarked(a + b) == Unmarked(a) + Unmarked(b) && Count(a + b) == Count(a) + Count(b)
  {
    hide Marked;
    if a == [] {
      assert a + b == b;
    } else {
      assert (a + b)[1..] == a[1..] + b;
      UnmarkedConcat(a[1..], b);
    }
  }

  lemma {:induction false} UnmarkedFacts(lines: seq<string>)
    ensures Count(Unmarked(lines)) == 0
    ensures forall l :: l in Unmarked(lines) ==> l in lines
    ensures Count(lines) == 0 <==> forall l :: l in lines ==> !Marked(l)
    ensures Count(lines) == 0 ==> Unmarked(lines) == lines
  {
    hide Marked;
    if lines != [] {
      UnmarkedFacts(lines[1..]);
      var rest := Unmarked(lines[1..]);
      assert [] + rest == rest && ([lines[0]] + rest)[1..] == rest;
    }
  }

  lemma MarkerIsOneWord()
    ensures MARKER != "" && forall i :: 0 <= i < |MARKER| ==> !IsSpace(MARKER[i])
  {}

  lemma MarkedTrimmed(line: string)
    ensures Marked(TrimSpace(line)) <==> Marked(line)
  {
    MarkerIsOneWord();
    TrimKeepsOccurrences(line, MARKER);
  }

  lemma MarkedDropCR(line: string)
    ensures Marked(DropCR(line)) <==> Marked(line)
  {
    MarkerIsOneWord();
    if DropCR(line) != line {
      var n := |line| - 1;
      if i :| OccursAt(DropCR(line), MARKER, i) {
        assert line[i..i + |MARKER|] == DropCR(line)[i..i + |MARKER|];
        assert OccursAt(line, MARKER, i);
      }
      if i :| OccursAt(line, MARKER, i) {
        assert Blank(line[..0]) && Blank(line[n..]);
        OccursWithin(line, 0, n, MARKER, i);
        assert line[0..n] == DropCR(line);
      }
    }
  }

  lemma {:induction false} DropCRsFacts(lines: seq<string>)
    ensures Unmarked(DropCRs(lines)) == DropCRs(Unmarked(lines)) && Count(DropCRs(lines)) == Count(lines)
  {
    hide Marked, DropCR;
    if lines != [] {
      MarkedDropCR(lines[0]);
      DropCRsFacts(lines[1..]);
      var rest := DropCRs(lines[1..]);
      assert ([DropCR(lines[0])] + rest)[1..] == rest;
      assert [lines[0]] + Unmarked(lines[1..]) != [] && ([lines[0]] + Unmarked(lines[1..]))[1..] == Unmarked(lines[1..]);
      assert [] + Unmarked(lines[1..]) == Unmarked(lines[1..]);
    }
  }

  // ----- Ensure -------------------------------------------------------------

  /** The lines with our entry in place: the first marked line is replaced, further ones
      are dropped, and without any the entry is appended. */
  function Rewritten(lines: seq<string>, entry: string, replaced: bool): seq<string> {
    if lines == [] then (if replaced then [] else [entry])
    else if Marked(lines[0]) then (if replaced then [] else [entry]) + Rewritten(lines[1..], entry, true)
    else [lines[0]] + Rewritten(lines[1..], entry, replaced)
  }

  /** Our entry is there already, exactly. */
  ghost predicate Present(lines: seq<string>, entry: string) {
    exists i :: 0 <= i < |lines| && TrimSpace(lines[i]) == entry
  }

  /** A line as `ensureUnixCron` builds it. */
  ghost predicate IsEntry(entry: string) {
    Marked(entry) && Trimmed(entry) && entry != "" && OneLine(entry)
  }

  /** The text to write, or nothing if the entry is present. */
  ghost function Ensured(text: string, entry: string): Option<string> {
    if Present(ScanLines(text), entry) then None else Some(Unlines(Rewritten(ScanLines(text), entry, false)))
  }

  lemma RewrittenAt(lines: seq<string>, i: nat, entry: string, replaced: bool)
    requires i < |lines|
    ensures Rewritten(lines[i..], entry, replaced) ==
      (if !Marked(lines[i]) then [lines[i]] else if replaced then [] else [entry]) +
      Rewritten(lines[i + 1..], entry, replaced || Marked(lines[i]))
  {
    hide Marked;
    assert lines[i..][1..] == lines[i + 1..];
  }

  lemma RewrittenEnd(lines: seq<string>, entry: string, replaced: bool)
    ensures Rewritten(lines[|lines|..], entry, replaced) == if replaced then [] else [entry]
  {
    assert lines[|lines|..] == [];
  }

  /** The loop of `ensureUnixCron` and of `ensureUnixCronSystemFile`. */
  method EnsureEntry(text: string, entry: string) returns (r: Option<string>)
    requires IsEntry(entry)
    ensures r == Ensured(text, entry)
  {
    hide Marked, TrimSpace, Unlines, ScanLines, Rewritten;
    var lines := ScanLines(text);
    var newCrontab := "";
    ghost var done: seq<string> := [];
    var foundMarker, replacedOrAppended := false, false;
    UnlinesNone();
    assert lines[0..] == lines;
    for i := 0 to |lines|
      invariant newCrontab == Unlines(done) && foundMarker == replacedOrAppended
      invariant done + Rewritten(lines[i..], entry, replacedOrAppended) == Rewritten(lines, entry, false)
      invariant forall j :: 0 <= j < i ==> TrimSpace(lines[j]) != entry
    {
      var line := lines[i];
      var lineStr := TrimSpace(line);
      MarkedTrimmed(line);
      RewrittenAt(lines, i, entry, replacedOrAppended);
      if Marked(lineStr) {
        foundMarker := true;
        if lineStr == entry { return None; }
        if !replacedOrAppended {
          UnlinesSnoc(done, entry);
          done := done + [entry];
          newCrontab := newCrontab + entry + "\n";
          replacedOrAppended := true;
        }
        continue;
      }
      UnlinesSnoc(done, line);
      done := done + [line];
      newCrontab := newCrontab + line + "\n";
    }
    RewrittenEnd(lines, entry, replacedOrAppended);
    if !foundMarker {
      UnlinesSnoc(done, entry);
      done := done + [entry];
      newCrontab := newCrontab + entry + "\n";
    }
    assert done == Rewritten(lines, entry, false);
    return Some(newCrontab);
  }

  // ----- Remove -------------------------------------------------------------

  /** `removeCrontabMarker`, and the same for the system file: nothing is written if the
      marker does not occur. */
  function Removed(text: string): Option<string> {
    if Contains(text, MARKER) then Some(Unlines(Unmarked(ScanLines(text)))) else None
  }

  method RemoveEntry(text: string) returns (r: Option<string>)
    ensures r == Removed(text)
  {
    hide Marked, Contains, Unlines, ScanLines;
    if !Contains(text, MARKER) { return None; }
    var lines := ScanLines(text);
    var out := "";
    UnlinesNone();
    for i := 0 to |lines|
      invariant out == Unlines(Unmarked(lines[..i]))
    {
      var line := lines[i];
      assert lines[..i + 1] == lines[..i] + [line];
      UnmarkedConcat(lines[..i], [line]);
      assert Unmarked([line]) == if Marked(line) then [] else [line];
      assert Unmarked(lines[..i]) + [] == Unmarked(lines[..i]);
      if Marked(line) { continue; }
      UnlinesSnoc(Unmarked(lines[..i]), line);
      out := out + line + "\n";
    }
    assert lines[..|lines|] == lines;
    return Some(out);
  }

  // ----- Laws ---------------------------------------------------------------

  lemma {:induction false} RewrittenFacts(lines: seq<string>, entry: string, replaced: bool)
    requires Marked(entry)
    ensures var r := Rewritten(lines, entry, replaced);
      Unmarked(r) == Unmarked(lines) && Count(r) == (if replaced then 0 else 1) && (!replaced ==> entry in r)
  {
    hide Marked;
    var one := if replaced then [] else [entry];
    assert Unmarked(one) == [] && Count(one) == |one|;
    if lines != [] {
      var rest := lines[1..];
      if Marked(lines[0]) {
        RewrittenFacts(rest, entry, true);
        UnmarkedConcat(one, Rewritten(rest, entry, true));
      } else {
        RewrittenFacts(rest, entry, replaced);
        UnmarkedConcat([lines[0]], Rewritten(rest, entry, replaced));
        UnmarkedConcat([lines[0]], rest);
        assert lines == [lines[0]] + rest;
      }
    }
  }

  lemma {:induction false} RewrittenLines(lines: seq<string>, entry: string, replaced: bool)
    ensures forall l :: l in Rewritten(lines, entry, replaced) ==> l in lines || l == entry
  {
    hide Marked;
    if lines != [] {
      RewrittenLines(lines[1..], entry, replaced || Marked(lines[0]));
    }
  }

  lemma {:induction false} DropCRsHas(lines: seq<string>, l: string)
    requires l in lines
    ensures DropCR(l) in DropCRs(lines)
  {
    if lines[0] != l { DropCRsHas(lines[1..], l); }
  }

  /** A new crontab, read again, has exactly one marked line, which is our entry, and the
      other lines of the old one. */
  lemma EnsuredLines(text: string, entry: string)
    requires IsEntry(entry) && Ensured(text, entry).Some?
    ensures var lines := ScanLines(Ensured(text, entry).value);
      && Count(lines) == 1 && Present(lines, entry)
      && Unmarked(lines) == DropCRs(Unmarked(ScanLines(text)))
  {
    hide Marked, TrimSpace, Unlines, ScanFrom, Rewritten;
    var found := ScanLines(text);
    var r := Rewritten(found, entry, false);
    ScanGivesLines("", text);
    RewrittenLines(found, entry, false);
    ScanUnlines(r);
    RewrittenFacts(found, entry, false);
    DropCRsFacts(r);
    DropCRsHas(r, entry);
    EntryIsBare(entry);
    var lines := ScanLines(Unlines(r));
    var i :| 0 <= i < |lines| && lines[i] == entry;
    assert TrimSpace(lines[i]) == entry;
  }

  lemma EntryIsBare(entry: string)
    requires IsEntry(entry)
    ensures DropCR(entry) == entry && TrimSpace(entry) == entry
  {
    hide Marked;
    TrimSame(entry);
    assert IsSpace('\r');
  }

  function Written(text: string, r: Option<string>): string { if r.Some? then r.value else text }

  /** Ensuring twice is ensuring once, for every crontab. */
  lemma EnsureIdempotent(text: string, entry: string)
    requires IsEntry(entry)
    ensures Ensured(Written(text, Ensured(text, entry)), entry) == None
  {
    hide ScanLines, Unlines, Rewritten;
    if Ensured(text, entry).Some? { EnsuredLines(text, entry); }
  }

  /** Ensuring leaves exactly one marked line, unless the entry is already there beside others. */
  lemma EnsureLeavesOne(text: string, entry: string)
    requires IsEntry(entry)
    ensures Count(ScanLines(Written(text, Ensured(text, entry)))) == 1 <==>
            !(Present(ScanLines(text), entry) && Count(ScanLines(text)) >= 2)
  {
    hide ScanLines, Unlines, Rewritten, Marked, TrimSpace;
    if Ensured(text, entry).Some? {
      EnsuredLines(text, entry);
    } else {
      var lines := ScanLines(text);
      var i :| 0 <= i < |lines| && TrimSpace(lines[i]) == entry;
      MarkedTrimmed(lines[i]);
      UnmarkedFacts(lines);
      assert lines[i] in lines;
    }
  }

  /** Where the entry stands before another marked line, both stay. */
  lemma SecondMarkedStays(entry: string, other: string)
    requires IsEntry(entry) && OneLine(other) && Marked(other)
    ensures var text := Unlines([entry, other]); Ensured(text, entry) == None && Count(ScanLines(text)) == 2
  {
    ScanUnlines([entry, other]);
    EntryIsBare(entry);
    MarkedDropCR(other);
    hide Unlines, ScanFrom, Marked, TrimSpace, DropCR, Rewritten;
    var lines := [entry, DropCR(other)];
    assert DropCRs([entry, other]) == lines by {
      assert [entry, other][1..] == [other] && [other][1..] == [];
      assert DropCRs([other]) == [DropCR(other)] + DropCRs([]);
    }
    assert lines[1..] == [DropCR(other)] && [DropCR(other)][1..] == [];
    assert Count([DropCR(other)]) == 1 + Count([]);
    assert TrimSpace(lines[0]) == entry;
  }

  // Occurrences of the marker in the text are occurrences in its lines.

  lemma OccursInLine(a: string, b: string, i: int)
    requires OccursAt(a + "\n" + b, MARKER, i)
    ensures OccursAt(a, MARKER, i) || OccursAt(b, MARKER, i - |a| - 1)
  {
    var t, m := a + "\n" + b, |MARKER|;
    assert forall j :: 0 <= j < m ==> t[i + j] == t[i..i + m][j] == MARKER[j];
    assert '\n' !in MARKER;
    assert t[|a|] == '\n';
    if i + m <= |a| {
      assert a[i..i + m] == t[i..i + m];
    } else {
      var k := i - |a| - 1;
      assert b[k..k + m] == t[i..i + m];
    }
  }

  lemma OccursInText(a: string, b: string, i: int)
    ensures OccursAt(a, MARKER, i) ==> OccursAt(a + "\n" + b, MARKER, i)
    ensures OccursAt(b, MARKER, i) ==> OccursAt(a + "\n" + b, MARKER, i + |a| + 1)
  {
    var t, m := a + "\n" + b, |MARKER|;
    if OccursAt(a, MARKER, i) { assert a[i..i + m] == t[i..i + m]; }
    var k := i + |a| + 1;
    if OccursAt(b, MARKER, i) { assert b[i..i + m] == t[k..k + m]; }
  }

  lemma OccursSplit(a: string, b: string)
    ensures Marked(a + "\n" + b) <==> Marked(a) || Marked(b)
  {
    hide OccursAt;
    if i :| OccursAt(a + "\n" + b, MARKER, i) { OccursInLine(a, b, i); }
    if i :| OccursAt(a, MARKER, i) { OccursInText(a, b, i); }
    if i :| OccursAt(b, MARKER, i) { OccursInText(a, b, i); }
  }

  lemma {:induction false} MarkedText(line: string, text: string)
    ensures Marked(line + text) <==> Count(ScanFrom(line, text)) > 0
    decreases |text|
  {
    hide Marked, DropCR;
    MarkedDropCR(line);
    if text == "" {
      assert line + text == line;
      NothingMarked();
      if line != "" { assert [DropCR(line)][1..] == []; }
    } else if text[0] == '\n' {
      assert line + text == line + "\n" + text[1..];
      OccursSplit(line, text[1..]);
      MarkedText("", text[1..]);
      assert "" + text[1..] == text[1..];
      UnmarkedConcat([DropCR(line)], ScanFrom("", text[1..]));
      assert Count([DropCR(line)]) == if Marked(DropCR(line)) then 1 else 0;
    } else {
      assert line + text == line + [text[0]] + text[1..];
      MarkedText(line + [text[0]], text[1..]);
    }
  }

  lemma NothingMarked()
    ensures !Marked("")
  {}

  /** Removing leaves no marked line, and is a change exactly if there was one. */
  lemma RemovedLines(text: string)
    ensures Removed(text).Some? <==> Count(ScanLines(text)) > 0
    ensures var lines := ScanLines(Written(text, Removed(text)));
      Count(lines) == 0 && (Removed(text).Some? ==> Unmarked(lines) == DropCRs(Unmarked(ScanLines(text))))
  {
    MarkedText("", text);
    assert "" + text == text;
    hide Unlines, ScanFrom, Marked;
    if Removed(text).Some? {
      var found := ScanLines(text);
      ScanGivesLines("", text);
      UnmarkedFacts(found);
      ScanUnlines(Unmarked(found));
      DropCRsFacts(Unmarked(found));
      DropCRsFacts(found);
      UnmarkedFacts(DropCRs(Unmarked(found)));
    }
  }

  /** Removing after ensuring leaves the lines that were not marked; they pass the scanner once more, and
      may lose a carriage return, unless the entry was there already. */
  lemma RemovedAfterEnsure(text: string, entry: string)
    requires IsEntry(entry)
    ensures var others := Unmarked(ScanLines(text));
      Removed(Written(text, Ensured(text, entry))) ==
      Some(Unlines(if Present(ScanLines(text), entry) then others else DropCRs(others)))
  {
    hide Unlines, ScanLines, Marked, TrimSpace, Rewritten;
    var after := Written(text, Ensured(text, entry));
    RemovedLines(after);
    if Ensured(text, entry).Some? {
      EnsuredLines(text, entry);
    } else {
      var lines := ScanLines(text);
      var i :| 0 <= i < |lines| && TrimSpace(lines[i]) == entry;
      MarkedTrimmed(lines[i]);
      UnmarkedFacts(lines);
      assert lines[i] in lines;
    }
  }

  /** Removing undoes ensuring exactly if the entry was there already or none of the other lines, as scanned,
      still ends in a carriage return. */
  lemma RemoveAfterEnsure(text: string, entry: string)
    requires IsEntry(entry)
    ensures var others := Unmarked(ScanLines(text));
      Removed(Written(text, Ensured(text, entry))) == Some(Unlines(others)) <==>
      Present(ScanLines(text), entry) || forall l :: l in others ==> DropCR(l) == l
  {
    var others := Unmarked(ScanLines(text));
    RemovedAfterEnsure(text, entry);
    ScanGivesLines("", text);
    hide Unlines, ScanFrom, Unmarked, Present, Marked;
    UnmarkedFacts(ScanLines(text));
    DropCRsSame(others);
    if Unlines(DropCRs(others)) == Unlines(others) { UnlinesInjective(DropCRs(others), others); }
  }

  lemma {:induction false} DropCRsSame(lines: seq<string>)
    requires forall l :: l in lines ==> OneLine(l)
    ensures DropCRs(lines) == lines <==> forall l :: l in lines ==> DropCR(l) == l
    ensures forall l :: l in DropCRs(lines) ==> OneLine(l)
  {
    hide DropCR;
    if lines != [] {
      assert lines[0] in lines;
      DropCRIsOneLine(lines[0]);
      DropCRsSame(lines[1..]);
    }
  }

  lemma DropCRIsOneLine(l: string)
    requires OneLine(l)
    ensures OneLine(DropCR(l))
  {}

  /** The one line of a crontab that ends in two carriage returns comes back with none. */
  lemma CarriageReturnLost(job: string, entry: string)
    requires IsEntry(entry) && OneLine(job) && !Marked(job)
    ensures var text := job + "\r\r" + "\n";
      Unmarked(ScanLines(text)) == [job + "\r"] && Removed(Written(text, Ensured(text, entry))) == Some(job + "\n")
  {
    var text, line := job + "\r\r" + "\n", job + "\r";
    ScanTwoReturns(job);
    MarkedDropCR(line);
    hide Marked, ScanFrom;
    assert DropCR(line) == job;
    assert Unmarked([line]) == [line] by { assert [line][1..] == []; }
    MarkedTrimmed(line);
    RemovedAfterEnsure(text, entry);
    assert DropCRs([line]) == [job] by { assert [line][1..] == []; }
    UnlinesSnoc([], job);
    assert [] + [job] == [job] && "" + job == job;
  }

  lemma ScanTwoReturns(job: string)
    requires OneLine(job)
    ensures ScanLines(job + "\r\r" + "\n") == [job + "\r"]
  {
    var line := job + "\r\r";
    ScanLine("", line, "");
    assert line + "\n" + "" == line + "\n" && "" + line == line;
    assert DropCR(line) == job + "\r";
  }

  // ----- Line by line -------------------------------------------------------

  /** Lines as they stand between line breaks, without a carriage return at the end. */
  ghost predicate BareLines(lines: seq<string>) { forall l :: l in lines ==> OneLine(l) && DropCR(l) == l }

  lemma BareScan(lines: seq<string>)
    requires BareLines(lines)
    ensures ScanLines(Unlines(lines)) == lines
  {
    ScanUnlines(lines);
    DropCRsSame(lines);
  }

  lemma {:induction false} RewrittenBefore(a: seq<string>, rest: seq<string>, entry: string)
    requires Count(a) == 0
    ensures Rewritten(a + rest, entry, false) == a + Rewritten(rest, entry, false)
  {
    hide Marked;
    if a == [] {
      assert a + rest == rest;
    } else {
      assert (a + rest)[1..] == a[1..] + rest && [a[0]] + a[1..] == a;
      RewrittenBefore(a[1..], rest, entry);
    }
  }

  lemma {:induction false} RewrittenLater(b: seq<string>, entry: string)
    ensures Rewritten(b, entry, true) == Unmarked(b)
  {
    hide Marked;
    if b != [] { RewrittenLater(b[1..], entry); }
  }

  lemma NotPresent(a: seq<string>, m: string, b: seq<string>, entry: string)
    requires IsEntry(entry) && Count(a) == 0 && TrimSpace(m) != entry && forall l :: l in b ==> TrimSpace(l) != entry
    ensures !Present(a + [m] + b, entry)
  {
    hide Marked, TrimSpace;
    UnmarkedFacts(a);
    forall l | l in a
      ensures TrimSpace(l) != entry
    {
      MarkedTrimmed(l);
    }
    var lines := a + [m] + b;
    assert forall i :: 0 <= i < |lines| ==> lines[i] in a || lines[i] == m || lines[i] in b;
  }

  /** An old entry is replaced where it stands, further ones are dropped, and removing takes out all of them; no
      other line is touched. */
  lemma EntryIsReplaced(a: seq<string>, m: string, b: seq<string>, entry: string)
    requires IsEntry(entry) && BareLines(a + [m] + b) && Count(a) == 0 && Contains(m, "mysqlbackup-schedule")
    requires TrimSpace(m) != entry && forall l :: l in b ==> TrimSpace(l) != entry
    ensures var text := Unlines(a + [m] + b);
      && Ensured(text, entry) == Some(Unlines(a + [entry] + Unmarked(b)))
      && Removed(text) == Some(Unlines(a + Unmarked(b)))
    ensures Count(b) == 0 ==> Unmarked(b) == b
  {
    hide *;
    var lines := a + [m] + b;
    HasMarker(m);
    BareScan(lines);
    NotPresent(a, m, b, entry);
    OldEntry(a, m, b, entry);
    UnmarkedFacts(b);
    RemovedLines(Unlines(lines));
    Rewriting(Unlines(lines), lines, entry);
  }

  lemma HasMarker(l: string)
    ensures Marked(l) <==> Contains(l, "mysqlbackup-schedule")
  {}

  lemma OldEntry(a: seq<string>, m: string, b: seq<string>, entry: string)
    requires Count(a) == 0 && Marked(m)
    ensures var lines := a + [m] + b;
      && Rewritten(lines, entry, false) == a + [entry] + Unmarked(b)
      && Unmarked(lines) == a + Unmarked(b) && Count(lines) > 0
  {
    hide Marked;
    assert a + [m] + b == a + ([m] + b);
    RewrittenBefore(a, [m] + b, entry);
    assert ([m] + b)[1..] == b;
    RewrittenLater(b, entry);
    assert a + ([entry] + Unmarked(b)) == a + [entry] + Unmarked(b);
    UnmarkedFacts(a);
    UnmarkedConcat(a, [m] + b);
    assert Unmarked([m] + b) == [] + Unmarked(b) == Unmarked(b);
  }

  lemma Rewriting(text: string, lines: seq<string>, entry: string)
    requires ScanLines(text) == lines && !Present(lines, entry) && Removed(text).Some?
    ensures Ensured(text, entry) == Some(Unlines(Rewritten(lines, entry, false))) && Removed(text) == Some(Unlines(Unmarked(lines)))
  {
    hide Unlines, ScanLines, Rewritten, Unmarked, Present;
  }

  /** Without an old entry the new one is appended, and there is nothing to remove. */
  lemma EntryIsAppended(a: seq<string>, entry: string)
    requires IsEntry(entry) && BareLines(a) && forall l :: l in a ==> !Contains(l, "mysqlbackup-schedule")
    ensures Ensured(Unlines(a), entry) == Some(Unlines(a + [entry])) && Removed(Unlines(a)) == None
  {
    forall l | l in a
      ensures !Marked(l)
    {
      HasMarker(l);
    }
    BareScan(a);
    UnmarkedFacts(a);
    RemovedLines(Unlines(a));
    hide Unlines, ScanFrom, Marked, TrimSpace, BareLines;
    assert !Present(a, entry) by { forall l | l in a ensures TrimSpace(l) != entry { MarkedTrimmed(l); } }
    RewrittenBefore(a, [], entry);
    assert a + [] == a;
  }

  // ----- All runs -----------------------------------------------------------

  datatype Action = Ensure(entry: string) | Remove

  ghost function Act(text: string, a: Action): string {
    match a
    case Ensure(entry) => Written(text, Ensured(text, entry))
    case Remove => Written(text, Removed(text))
  }

  ghost function ActAll(text: string, actions: seq<Action>): string
    decreases |actions|
  {
    if actions == [] then text else ActAll(Act(text, actions[0]), actions[1..])
  }

  /** How many of the actions write a new crontab. */
  ghost function Rewrites(text: string, actions: seq<Action>): nat
    decreases |actions|
  {
    if actions == [] then 0
    else (if Changes(text, actions[0]) then 1 else 0) + Rewrites(Act(text, actions[0]), actions[1..])
  }

  ghost predicate Changes(text: string, a: Action) {
    match a
    case Ensure(entry) => Ensured(text, entry).Some?
    case Remove => Removed(text).Some?
  }

  /** The lines after passing the scanner `n` more times. */
  function Rescanned(lines: seq<string>, n: nat): seq<string>
    decreases n
  {
    if n == 0 then lines else Rescanned(DropCRs(lines), n - 1)
  }

  lemma ActLines(text: string, a: Action)
    requires a.Ensure? ==> IsEntry(a.entry)
    ensures !Changes(text, a) ==> Act(text, a) == text
    ensures Changes(text, a) ==> var lines := ScanLines(Act(text, a));
      Count(lines) <= 1 && Unmarked(lines) == DropCRs(Unmarked(ScanLines(text)))
  {
    hide ScanLines, Unlines, Marked;
    match a
    case Ensure(entry) => if Ensured(text, entry).Some? { EnsuredLines(text, entry); }
    case Remove => RemovedLines(text);
  }

  /** Whatever sequence of installations, with whatever configurations, and removals: there is at most one marked line
      once anything was written, until then the crontab is untouched, and the other lines are all there in their
      order, having passed the scanner once for each writing. */
  lemma {:induction false} RunInvariant(text: string, actions: seq<Action>)
    requires forall a :: a in actions && a.Ensure? ==> IsEntry(a.entry)
    ensures Rewrites(text, actions) == 0 ==> ActAll(text, actions) == text
    ensures Rewrites(text, actions) > 0 ==> Count(ScanLines(ActAll(text, actions))) <= 1
    ensures Unmarked(ScanLines(ActAll(text, actions))) == Rescanned(Unmarked(ScanLines(text)), Rewrites(text, actions))
    decreases |actions|
  {
    hide ScanLines, Act, IsEntry, Changes;
    if actions != [] {
      assert actions[0] in actions;
      ActLines(text, actions[0]);
      RunInvariant(Act(text, actions[0]), actions[1..]);
    }
  }

  function Size(lines: seq<string>): nat {
    if lines == [] then 0 else |lines[0]| + Size(lines[1..])
  }

  /** Passing the scanner again makes lines shorter, unless it changes nothing. */
  lemma {:induction false} DropCRsShrinks(lines: seq<string>)
    ensures Size(DropCRs(lines)) <= Size(lines)
    ensures DropCRs(lines) == lines || Size(DropCRs(lines)) < Size(lines)
  {
    if lines != [] {
      DropCRsShrinks(lines[1..]);
      var rest := DropCRs(lines[1..]);
      assert ([DropCR(lines[0])] + rest)[1..] == rest;
      assert [lines[0]] + lines[1..] == lines;
    }
  }

  lemma {:induction false} RescannedShrinks(lines: seq<string>, n: nat)
    ensures Size(Rescanned(lines, n)) <= Size(lines)
    ensures Rescanned(lines, n) == lines <==> n == 0 || DropCRs(lines) == lines
    decreases n
  {
    if n > 0 {
      DropCRsShrinks(lines);
      RescannedShrinks(DropCRs(lines), n - 1);
    }
  }

  /** The other lines stay as they are exactly if nothing was written, or none of them, as scanned, still ends in a
      carriage return. */
  lemma RunKeepsOthersIff(text: string, actions: seq<Action>)
    requires forall a :: a in actions && a.Ensure? ==> IsEntry(a.entry)
    ensures var others := Unmarked(ScanLines(text));
      Unmarked(ScanLines(ActAll(text, actions))) == others <==>
      Rewrites(text, actions) == 0 || forall l :: l in others ==> DropCR(l) == l
  {
    var others := Unmarked(ScanLines(text));
    RunInvariant(text, actions);
    ScanGivesLines("", text);
    hide ScanFrom, Unmarked, Marked, Rewrites, ActAll, Rescanned, DropCRs, IsEntry;
    UnmarkedFacts(ScanLines(text));
    DropCRsSame(others);
    RescannedShrinks(others, Rewrites(text, actions));
  }

  // ----- The entry ----------------------------------------------------------

  function Decimal(n: nat): string {
    if n < 10 then ['0' + n as char] else Decimal(n / 10) + ['0' + (n % 10) as char]
  }

  /** `quoteForCron` */
  function QuoteForCron(s: string): string { "'" + ReplaceAll(s, '\'', "\\'") + "'" }

  /** The line for the user's crontab, or with a user name the one for the system file. */
  function CronLine(minute: nat, hour: nat, user: string, exe: string, config: string): string {
    Decimal(minute) + " " + Decimal(hour) + " * * * " + (if user == "" then "" else user + " ") +
    QuoteForCron(exe) + " --backup -config " + QuoteForCron(config) + " # " + MARKER
  }

  /** The first `k` fields of a line, each ended by one blank, and the rest. */
  function Fields(s: string, k: nat): (seq<string>, string)
    decreases k
  {
    if k == 0 then ([], s) else
    var i := IndexFrom(s, " ", 0);
    if i.None? then ([s], "") else
    var (more, rest) := Fields(s[i.value + 1..], k - 1);
    ([s[..i.value]] + more, rest)
  }

  function NumberOf(s: string): int {
    if s == "" then 0 else 10 * NumberOf(s[..|s| - 1]) + (s[|s| - 1] as int - 48)
  }

  lemma {:induction false} DecimalSays(n: nat)
    ensures NumberOf(Decimal(n)) == n && ' ' !in Decimal(n)
  {
    if n < 10 {
      assert Decimal(n)[..0] == "";
    } else {
      DecimalSays(n / 10);
      assert Decimal(n)[..|Decimal(n)| - 1] == Decimal(n / 10);
    }
  }

  lemma FirstField(f: string, rest: string, k: nat)
    requires ' ' !in f
    ensures Fields(f + (" " + rest), k + 1) == ([f] + Fields(rest, k).0, Fields(rest, k).1)
  {
    var s := f + (" " + rest);
    assert s[|f|..|f| + 1] == " " && OccursAt(s, " ", |f|);
    forall i | 0 <= i < |f|
      ensures !OccursAt(s, " ", i)
    {
      assert s[i..i + 1][0] == f[i];
    }
    assert s[..|f|] == f && s[|f| + 1..] == rest;
  }

  /** What cron makes of the line: minute, hour, every day, and the command, in the system file with the user before it. */
  lemma CronLineSays(minute: nat, hour: nat, user: string, exe: string, config: string)
    ensures var (fields, command) := Fields(CronLine(minute, hour, user, exe, config), 5);
      && |fields| == 5 && NumberOf(fields[0]) == minute && NumberOf(fields[1]) == hour && fields[2..] == ["*", "*", "*"]
      && command == (if user == "" then "" else user + " ") +
           (QuoteForCron(exe) + " --backup -config " + QuoteForCron(config) + " # mysqlbackup-schedule")
  {
    DecimalSays(minute); DecimalSays(hour);
    hide Decimal, QuoteForCron, Fields;
    var command := (if user == "" then "" else user + " ") +
                   (QuoteForCron(exe) + " --backup -config " + QuoteForCron(config) + " # mysqlbackup-schedule");
    CronLineText(minute, hour, user, exe, config, command);
    assert Fields(command, 0) == ([], command) by { NoFields(command); }
    FirstField("*", command, 0);
    FirstField("*", "*" + (" " + command), 1);
    FirstField("*", "*" + (" " + ("*" + (" " + command))), 2);
    var stars := "*" + (" " + ("*" + (" " + ("*" + (" " + command)))));
    FirstField(Decimal(hour), stars, 3);
    FirstField(Decimal(minute), Decimal(hour) + (" " + stars), 4);
  }

  lemma NoFields(s: string)
    ensures Fields(s, 0) == ([], s)
  {}

  lemma CronLineText(minute: nat, hour: nat, user: string, exe: string, config: string, command: string)
    requires command == (if user == "" then "" else user + " ") +
                        (QuoteForCron(exe) + " --backup -config " + QuoteForCron(config) + " # mysqlbackup-schedule")
    ensures CronLine(minute, hour, user, exe, config) ==
      Decimal(minute) + (" " + (Decimal(hour) + (" " + ("*" + (" " + ("*" + (" " + ("*" + (" " + command)))))))))
  {
    CronPieces();
    hide Decimal, QuoteForCron;
    var m := if user == "" then "" else user + " ";
    Starred(Decimal(minute), " ", Decimal(hour), "*", command);
    Tailed(Decimal(minute) + " " + Decimal(hour) + " * * * ", m, QuoteForCron(exe), " --backup -config ", QuoteForCron(config), " # ", MARKER);
  }

  lemma CronPieces()
    ensures " * * * " == " " + "*" + " " + "*" + " " + "*" + " " && " # " + MARKER == " # mysqlbackup-schedule"
  {}

  lemma Starred(d: string, b: string, h: string, s: string, c: string)
    ensures d + (b + (h + (b + (s + (b + (s + (b + (s + (b + c))))))))) == d + b + h + (b + s + b + s + b + s + b) + c
  {}

  lemma Tailed(a: string, m: string, e: string, f: string, c: string, g: string, k: string)
    ensures a + m + e + f + c + g + k == a + (m + (e + f + c + (g + k)))
  {}

  /** A path stands between single quotes, and a quote in it behind a backslash. */
  lemma QuotedForCron(a: string, b: string)
    requires '\'' !in a && '\'' !in b
    ensures QuoteForCron(a) == "'" + a + "'" && QuoteForCron(a + "'" + b) == "'" + a + "\\'" + b + "'"
  {
    var q, e := "'", "\\'";
    ReplaceAbsent(a, '\'', e); ReplaceAbsent(b, '\'', e);
    ReplaceConcat(a + q, b, '\'', e);
    ReplaceConcat(a, q, '\'', e);
    ReplacedOne('\'', e);
    hide ReplaceAll;
    assert ['\''] == q;
    Assoc(q, a, e);
  }

  lemma ReplacedOne(c: char, with: string)
    ensures ReplaceAll([c], c, with) == with
  {
    assert [c][1..] == "" && with + "" == with;
  }

  lemma {:induction false} ReplacedIsOneLine(s: string, c: char, with: string)
    requires OneLine(s) && OneLine(with)
    ensures OneLine(ReplaceAll(s, c, with))
  {
    if s != "" { ReplacedIsOneLine(s[1..], c, with); }
  }

  lemma {:induction false} DecimalStarts(n: nat)
    ensures Decimal(n) != "" && !IsSpace(Decimal(n)[0]) && OneLine(Decimal(n))
  {
    if n >= 10 { DecimalStarts(n / 10); }
  }

  /** The lines the program builds meet what the laws above ask of an entry. */
  lemma CronLineIsEntry(minute: nat, hour: nat, user: string, exe: string, config: string)
    requires OneLine(user) && OneLine(exe) && OneLine(config)
    ensures IsEntry(CronLine(minute, hour, user, exe, config))
  {
    DecimalStarts(minute); DecimalStarts(hour);
    ReplacedIsOneLine(exe, '\'', "\\'");
    ReplacedIsOneLine(config, '\'', "\\'");
    var front := Decimal(minute) + " " + Decimal(hour) + " * * * " + (if user == "" then "" else user + " ") +
                 QuoteForCron(exe) + " --backup -config " + QuoteForCron(config) + " # ";
    hide Decimal, ReplaceAll;
    assert front[0] == Decimal(minute)[0] && OneLine(front);
    EndsWithMarker(front);
  }

  lemma EndsWithMarker(front: string)
    requires front != "" && !IsSpace(front[0]) && OneLine(front)
    ensures IsEntry(front + MARKER)
  {
    var entry := front + MARKER;
    assert entry[|front|..|front| + |MARKER|] == MARKER;
    assert OccursAt(entry, MARKER, |front|);
  }
}
