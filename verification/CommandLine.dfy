/** `splitCommandLine` of internal/run/run.go and internal/restore/restore.go: both kinds of quote
    switch one flag, blanks outside quotes separate. */
module CommandLine {
  predicate IsQuote(c: char) { c == '"' || c == '\'' }
  predicate IsBlank(c: char) { c == ' ' || c == '\t' }

  datatype State = State(parts: seq<string>, b: string, inQuote: bool)

  function Step(st: State, r: char): State {
    if IsQuote(r) then st.(inQuote := !st.inQuote)
    else if IsBlank(r) then
      if !st.inQuote && |st.b| > 0 then State(st.parts + [st.b], "", false)
      else if st.inQuote then st.(b := st.b + [r])
      else st
    else st.(b := st.b + [r])
  }

  function Scan(st: State, s: string): State
    decreases |s|
  {
    if s == "" then st else Scan(Step(st, s[0]), s[1..])
  }

  const START := State([], "", false)

  function Finish(st: State): seq<string> {
    if |st.b| > 0 then st.parts + [st.b] else st.parts
  }

  function Split(s: string): seq<string> { Finish(Scan(START, s)) }

  method SplitCommandLine(s: string) returns (parts: seq<string>)
    ensures parts == Split(s)
    ensures Flatten(parts) == Kept(s, false) && forall p :: p in parts ==> p != ""
  {
    parts := [];
    var b := "";
    var inQuote := false;
    for i := 0 to |s|
      invariant Scan(State(parts, b, inQuote), s[i..]) == Scan(START, s)
    {
      var r := s[i];
      assert s[i..][1..] == s[i + 1..];
      if r == '"' || r == '\'' {
        inQuote := !inQuote;
      } else if r == ' ' || r == '\t' {
        if !inQuote && |b| > 0 {
          parts := parts + [b];
          b := "";
        } else if inQuote {
          b := b + [r];
        }
      } else {
        b := b + [r];
      }
    }
    if |b| > 0 { parts := parts + [b]; }
    SplitConserves(s);
  }

  function Flatten(parts: seq<string>): string {
    if parts == [] then "" else Flatten(parts[..|parts| - 1]) + parts[|parts| - 1]
  }

  /** The text without quote characters and without blanks outside quotes. */
  function Kept(s: string, inQuote: bool): string {
    if s == "" then ""
    else if IsQuote(s[0]) then Kept(s[1..], !inQuote)
    else (if IsBlank(s[0]) && !inQuote then "" else [s[0]]) + Kept(s[1..], inQuote)
  }

  lemma StepConserves(st: State, r: char)
    ensures var t := Step(st, r);
      && Flatten(t.parts) + t.b == Flatten(st.parts) + st.b + Kept([r], st.inQuote)
      && (t.parts == st.parts || (st.b != "" && t.parts == st.parts + [st.b]))
  {
    var t := Step(st, r);
    assert [r][1..] == "";
    if t.parts != st.parts { assert t.parts[..|t.parts| - 1] == st.parts; }
  }

  lemma {:induction false} ScanConserves(st: State, s: string)
    requires forall p :: p in st.parts ==> p != ""
    ensures var e := Scan(st, s);
      && Flatten(e.parts) + e.b == Flatten(st.parts) + st.b + Kept(s, st.inQuote)
      && forall p :: p in e.parts ==> p != ""
    decreases |s|
  {
    if s != "" {
      var t := Step(st, s[0]);
      StepConserves(st, s[0]);
      ScanConserves(t, s[1..]);
      assert Kept(s, st.inQuote) == Kept([s[0]], st.inQuote) + Kept(s[1..], t.inQuote);
      hide Step, Kept, Flatten;
    }
  }

  /** Splitting conserves the text, and no part is empty. */
  lemma SplitConserves(s: string)
    ensures Flatten(Split(s)) == Kept(s, false)
    ensures forall p :: p in Split(s) ==> p != ""
  {
    ScanConserves(START, s);
    var e := Scan(START, s);
    assert Flatten([]) + "" + Kept(s, false) == Kept(s, false);
    if |e.b| > 0 {
      assert Split(s)[..|Split(s)| - 1] == e.parts;
    }
  }

  // ----- Round trip ---------------------------------------------------------

  /** A word as one may write it: in quotes of one of the two kinds, or bare. */
  datatype Word = Bare(text: string) | InQuotes(text: string, quote: char)

  predicate WellFormed(w: Word) {
    && w.text != ""
    && (forall i :: 0 <= i < |w.text| ==> !IsQuote(w.text[i]))
    && (w.Bare? ==> forall i :: 0 <= i < |w.text| ==> !IsBlank(w.text[i]))
    && (w.InQuotes? ==> IsQuote(w.quote))
  }

  function Show(w: Word): string {
    if w.Bare? then w.text else [w.quote] + w.text + [w.quote]
  }

  /** Words, each followed by a run of blanks. */
  function ShowAll(words: seq<Word>, gaps: seq<string>): string
    requires |words| == |gaps|
  {
    if words == [] then "" else ShowAll(words[..|words| - 1], gaps[..|gaps| - 1]) + Show(words[|words| - 1]) + gaps[|gaps| - 1]
  }

  function Texts(words: seq<Word>): seq<string> { seq(|words|, i requires 0 <= i < |words| => words[i].text) }

  lemma {:induction false} ScanConcat(st: State, a: string, b: string)
    ensures Scan(st, a + b) == Scan(Scan(st, a), b)
    decreases |a|
  {
    if a == "" {
      assert a + b == b;
    } else {
      assert (a + b)[1..] == a[1..] + b;
      ScanConcat(Step(st, a[0]), a[1..], b);
    }
  }

  lemma {:induction false} ScanText(st: State, s: string)
    requires forall i :: 0 <= i < |s| ==> !IsQuote(s[i])
    requires st.inQuote || forall i :: 0 <= i < |s| ==> !IsBlank(s[i])
    ensures Scan(st, s) == st.(b := st.b + s)
    decreases |s|
  {
    if s != "" {
      ScanText(Step(st, s[0]), s[1..]);
      assert st.b + [s[0]] + s[1..] == st.b + s;
    } else {
      assert st.b + "" == st.b;
    }
  }

  lemma {:induction false} ScanBlanks(st: State, s: string)
    requires !st.inQuote && BlankRun(s)
    ensures Scan(st, s) == if s == "" || st.b == "" then st else State(st.parts + [st.b], "", false)
    decreases |s|
  {
    if s != "" { ScanBlanks(Step(st, s[0]), s[1..]); }
  }

  lemma ScanWord(st: State, w: Word)
    requires WellFormed(w) && !st.inQuote && st.b == ""
    ensures Scan(st, Show(w)) == st.(b := w.text) && w.text != ""
  {
    if w.Bare? {
      ScanText(st, w.text);
    } else {
      var q := [w.quote];
      ScanConcat(st, q + w.text, q);
      ScanConcat(st, q, w.text);
      assert q[1..] == "";
      var open := st.(inQuote := true);
      assert Scan(st, q) == open;
      ScanText(open, w.text);
      assert Scan(open.(b := "" + w.text), q) == st.(b := "" + w.text);
    }
    assert "" + w.text == w.text;
  }

  predicate BlankRun(s: string) { forall i :: 0 <= i < |s| ==> IsBlank(s[i]) }

  /** All words are apart; behind the last one there may be nothing. */
  ghost predicate Gaps(gaps: seq<string>) {
    forall i :: 0 <= i < |gaps| ==> BlankRun(gaps[i]) && (i < |gaps| - 1 ==> gaps[i] != "")
  }

  lemma ScanNext(e: State, w: Word, gap: string)
    requires WellFormed(w) && BlankRun(gap) && !e.inQuote && e.b == ""
    ensures var f := Scan(Scan(e, Show(w)), gap); !f.inQuote && Finish(f) == Finish(e) + [w.text] && (gap != "" ==> f.b == "")
  {
    hide Scan, Show, WellFormed, BlankRun;
    ScanWord(e, w);
    ScanBlanks(e.(b := w.text), gap);
  }

  lemma {:induction false} ScanWords(words: seq<Word>, gaps: seq<string>)
    requires |words| == |gaps| && Gaps(gaps) && forall w :: w in words ==> WellFormed(w)
    ensures var e := Scan(START, ShowAll(words, gaps));
      && !e.inQuote && Finish(e) == Texts(words)
      && (words == [] || gaps[|gaps| - 1] != "" ==> e.b == "")
    decreases |words|
  {
    if words != [] {
      hide Scan, Step, Show, WellFormed, BlankRun, Finish;
      var k := |words| - 1;
      var front, w, gap := ShowAll(words[..k], gaps[..k]), words[k], gaps[k];
      ScanWords(words[..k], gaps[..k]);
      var e := Scan(START, front);
      assert k > 0 ==> gaps[..k][k - 1] == gaps[k - 1];
      assert w in words;
      assert ShowAll(words, gaps) == front + Show(w) + gap;
      hide ShowAll;
      ScanConcat(START, front + Show(w), gap);
      ScanConcat(START, front, Show(w));
      ScanNext(e, w, gap);
      assert Texts(words) == Texts(words[..k]) + [w.text];
    }
  }

  /** Any list of words, bare or in either kind of quotes and any blanks apart, is split
      into just these words. */
  lemma SplitRoundTrip(words: seq<Word>, gaps: seq<string>)
    requires |words| == |gaps| && Gaps(gaps) && forall w :: w in words ==> WellFormed(w)
    ensures Split(ShowAll(words, gaps)) == Texts(words)
  {
    ScanWords(words, gaps);
  }

  // ----- Where parts end ----------------------------------------------------

  /** Behind the text one is inside quotes: it has an odd number of quote characters, of whichever kind. */
  predicate Inside(s: string) {
    s != "" && Inside(s[..|s| - 1]) != (s[|s| - 1] == '"' || s[|s| - 1] == '\'')
  }

  /** No blank stands outside quotes. */
  predicate Gapless(s: string) { forall i :: 0 <= i < |s| && (s[i] == ' ' || s[i] == '\t') ==> Inside(s[..i]) }

  function Unquoted(s: string): string {
    if s == "" then ""
    else Unquoted(s[..|s| - 1]) + if s[|s| - 1] == '"' || s[|s| - 1] == '\'' then "" else [s[|s| - 1]]
  }

  lemma ScanOne(st: State, c: char)
    ensures Scan(st, [c]) == Step(st, c)
  {
    assert [c][1..] == "";
  }

  lemma {:induction false} ScanInside(st: State, s: string)
    ensures Scan(st, s).inQuote == (st.inQuote != Inside(s))
  {
    if s != "" {
      var init, c := s[..|s| - 1], s[|s| - 1];
      assert s == init + [c];
      ScanConcat(st, init, [c]);
      ScanOne(Scan(st, init), c);
      ScanInside(st, init);
    }
  }

  lemma {:induction false} ScanGapless(st: State, s: string)
    requires !st.inQuote && Gapless(s)
    ensures Scan(st, s) == State(st.parts, st.b + Unquoted(s), Inside(s))
  {
    if s == "" {
      assert st.b + "" == st.b;
    } else {
      var init, c := s[..|s| - 1], s[|s| - 1];
      assert s == init + [c];
      assert forall i :: 0 <= i < |init| ==> init[..i] == s[..i] && init[i] == s[i];
      assert Gapless(init);
      ScanConcat(st, init, [c]);
      ScanOne(Scan(st, init), c);
      ScanGapless(st, init);
      assert IsBlank(c) ==> Inside(init);
      assert st.b + Unquoted(init) + [c] == st.b + (Unquoted(init) + [c]);
      assert st.b + Unquoted(init) == st.b + (Unquoted(init) + "");
    }
  }

  lemma {:induction false} ScanShift(front: seq<string>, st: State, s: string)
    ensures Scan(State(front + st.parts, st.b, st.inQuote), s) == var e := Scan(st, s); State(front + e.parts, e.b, e.inQuote)
    decreases |s|
  {
    if s != "" {
      var t := Step(st, s[0]);
      assert front + (st.parts + [st.b]) == front + st.parts + [st.b];
      assert Step(State(front + st.parts, st.b, st.inQuote), s[0]) == State(front + t.parts, t.b, t.inQuote);
      ScanShift(front, t, s[1..]);
    }
  }

  /** A text without a blank outside quotes is one part, without its quote characters, if anything is left of it: quoted
      and bare text may be joined. */
  lemma GaplessIsOne(s: string)
    requires Gapless(s)
    ensures Split(s) == if Unquoted(s) == "" then [] else [Unquoted(s)]
  {
    ScanGapless(START, s);
    assert "" + Unquoted(s) == Unquoted(s);
  }

  /** And a blank outside quotes ends a part: what is before it and what is behind it are split each for itself. */
  lemma BlankEndsPart(a: string, blank: char, b: string)
    requires !Inside(a) && (blank == ' ' || blank == '\t')
    ensures Split(a + [blank] + b) == Split(a) + Split(b)
  {
    var e := Scan(START, a);
    ScanInside(START, a);
    ScanConcat(START, a + [blank], b);
    ScanConcat(START, a, [blank]);
    ScanOne(e, blank);
    hide Scan, Step;
    var parts := Split(a);
    assert Scan(START, a + [blank]) == State(parts, "", false) by { BlankStep(e, blank); }
    assert parts + [] == parts;
    ScanShift(parts, START, b);
    var f := Scan(START, b);
    assert parts + f.parts + [f.b] == parts + (f.parts + [f.b]);
  }

  lemma BlankStep(e: State, blank: char)
    requires !e.inQuote && (blank == ' ' || blank == '\t')
    ensures Step(e, blank) == State(Finish(e), "", false)
  {}
}
