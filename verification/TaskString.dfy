/** The command string of the Windows task in internal/schedule/schedule.go: paths are quoted
    with doubled quotes, and read back from the task scheduler's listing. */
module TaskString {
  import opened Text

  // ----- Doubled quotes -----------------------------------------------------

  /** `pathForTR` */
  function PathForTR(s: string): string { ReplaceAll(s, '"', "\"\"") }

  function InQuotes(s: string): string { "\"" + PathForTR(s) + "\"" }

  /** The text up to the closing quote, and what follows it; a doubled quote stands for one. */
  function ReadQuoted(t: string): Option<(string, string)>
    decreases |t|
  {
    if t == "" then None
    else if t[0] != '"' then Prepend([t[0]], ReadQuoted(t[1..]))
    else if |t| > 1 && t[1] == '"' then Prepend("\"", ReadQuoted(t[2..]))
    else Some(("", t[1..]))
  }

  function Extracted(s: string): Option<(string, string)> {
    if s == "" || s[0] != '"' then None else ReadQuoted(s[1..])
  }

  lemma PrependEnd(s: string, rest: string)
    ensures Prepend(s, Some(("", rest))) == Some((s, rest)) && Prepend(s, None) == None
  {
    assert s + "" == s;
  }

  method ExtractDoubleQuoted(s: string) returns (content: string, rest: string, ok: bool)
    ensures ok <==> Extracted(s).Some?
    ensures ok ==> Extracted(s) == Some((content, rest))
    ensures !ok ==> content == "" && rest == if s == "" || s[0] != '"' then s else ""
  {
    hide Prepend;
    if |s| == 0 || s[0] != '"' { return "", s, false; }
    var buf := "";
    var i := 1;
    PrependJoins("", "", ReadQuoted(s[1..]));
    while i < |s|
      invariant 1 <= i <= |s|
      invariant Extracted(s) == Prepend(buf, ReadQuoted(s[i..]))
    {
      assert s[i..][1..] == s[i + 1..];
      if s[i] == '"' {
        if i + 1 < |s| && s[i + 1] == '"' {
          assert s[i..][2..] == s[i + 2..];
          PrependJoins(buf, "\"", ReadQuoted(s[i + 2..]));
          buf := buf + "\"";
          i := i + 2;
          continue;
        }
        PrependEnd(buf, s[i + 1..]);
        return buf, s[i + 1..], true;
      }
      PrependJoins(buf, [s[i]], ReadQuoted(s[i + 1..]));
      buf := buf + [s[i]];
      i := i + 1;
    }
    PrependEnd(buf, "");
    return "", "", false;
  }

  lemma {:induction false} ReadPath(s: string, t: string)
    ensures ReadQuoted(PathForTR(s) + t) == Prepend(s, ReadQuoted(t))
    decreases |s|
  {
    if s == "" {
      assert PathForTR(s) + t == t;
      PrependJoins("", "", ReadQuoted(t));
    } else {
      ReadPath(s[1..], t);
      var head := if s[0] == '"' then "\"\"" else [s[0]];
      var rest := PathForTR(s[1..]) + t;
      assert PathForTR(s) + t == head + rest;
      assert (head + rest)[|head|..] == rest;
      PrependJoins([s[0]], s[1..], ReadQuoted(t));
      assert [s[0]] + s[1..] == s;
    }
  }

  /** Every path, with or without quotes in it, is read back up to exactly its closing quote. */
  lemma QuotedRoundTrip(s: string, rest: string)
    requires rest == "" || rest[0] != '"'
    ensures Extracted(InQuotes(s) + rest) == Some((s, rest))
  {
    assert (InQuotes(s) + rest)[1..] == PathForTR(s) + ("\"" + rest);
    ReadPath(s, "\"" + rest);
    assert ("\"" + rest)[1..] == rest;
    assert s + "" == s;
  }

  // ----- The task command ---------------------------------------------------

  function PlannedTaskRun(workDir: string, exe: string, config: string): string {
    "cmd.exe " + ("/c cd /d " + InQuotes(workDir) + " && " + InQuotes(exe) + " --backup -config " + InQuotes(config))
  }

  /** The command as it is stored, for paths without quotes; a quote in a path is doubled. */
  lemma PlannedSays(workDir: string, exe: string, config: string)
    requires '"' !in workDir && '"' !in exe && '"' !in config
    ensures PlannedTaskRun(workDir, exe, config) ==
      "cmd.exe /c cd /d \"" + workDir + "\" && \"" + exe + "\" --backup -config \"" + config + "\""
    ensures InQuotes(exe + "\"" + config) == "\"" + exe + "\"\"" + config + "\""
  {
    PlainInQuotes(workDir); PlainInQuotes(exe); PlainInQuotes(config);
    QuoteIsDoubled(exe, config);
    PlannedPieces();
    hide InQuotes;
    Pieces("cmd.exe ", "/c cd /d ", "\"", workDir, " && ", exe, " --backup -config ", config);
  }

  lemma PlainInQuotes(s: string)
    requires '"' !in s
    ensures InQuotes(s) == "\"" + s + "\""
  {
    ReplaceAbsent(s, '"', "\"\"");
  }

  lemma QuoteIsDoubled(a: string, b: string)
    requires '"' !in a && '"' !in b
    ensures InQuotes(a + "\"" + b) == "\"" + a + "\"\"" + b + "\""
  {
    var q, qq := "\"", "\"\"";
    ReplaceAbsent(a, '"', qq); ReplaceAbsent(b, '"', qq);
    ReplaceConcat(a + q, b, '"', qq);
    ReplaceConcat(a, q, '"', qq);
    assert ReplaceAll(q, '"', qq) == qq by { assert q[1..] == ""; }
    hide ReplaceAll;
  }

  lemma PlannedPieces()
    ensures "cmd.exe " + "/c cd /d " + "\"" == "cmd.exe /c cd /d \""
    ensures "\"" + " && " + "\"" == "\" && \"" && "\"" + " --backup -config " + "\"" == "\" --backup -config \""
  {}

  lemma Pieces(a: string, b: string, q: string, w: string, c: string, e: string, d: string, f: string)
    ensures a + (b + (q + w + q) + c + (q + e + q) + d + (q + f + q)) == (a + b + q) + w + (q + c + q) + e + (q + d + q) + f + q
  {}

  /** Format 1a of `windowsTaskGetCommand`. */
  function ReadCommand(rest: string): Option<(string, string)> {
    var afterCdPrefix := if "cmd.exe /c cd /d " <= rest then "cmd.exe /c cd /d "
                         else if "cmd /c cd /d " <= rest then "cmd /c cd /d " else "";
    if afterCdPrefix == "" || !Contains(rest, " && ") then None
    else ReadAfterCd(TrimSpace(rest[|afterCdPrefix|..]))
  }

  function ReadAfterCd(rest: string): Option<(string, string)> {
    var dir := Extracted(rest);
    if dir.None? then None else
    var rest2 := TrimSpace(dir.value.1);
    if !("&& " <= rest2) then None else ReadExe(TrimSpace(rest2[3..]))
  }

  function ReadExe(rest: string): Option<(string, string)> {
    var exe := Extracted(rest);
    if exe.None? then None else ReadConfig(exe.value.0, TrimSpace(exe.value.1))
  }

  function ReadConfig(exe: string, rest: string): Option<(string, string)> {
    var idx := IndexFrom(rest, "-config ", 0);
    if idx.None? then None else
    var config := Extracted(TrimSpace(rest[idx.value + 8..]));
    if config.None? then None else Some((exe, config.value.0))
  }

  lemma QuoteEnds(s: string)
    ensures |InQuotes(s)| >= 2 && InQuotes(s)[0] == '"' && InQuotes(s)[|InQuotes(s)| - 1] == '"'
  {}

  /** What stands between a first character and a last one that are no spaces is trimmed. */
  lemma TrimQuoted(lead: string, s: string, q: string)
    requires Blank(lead) && s != "" && !IsSpace(s[0]) && q != "" && !IsSpace(q[|q| - 1])
    ensures TrimSpace(lead + (s + q)) == s + q && TrimSpace(s + q) == s + q
  {
    hide TrimSpace;
    assert (s + q)[0] == s[0] && (s + q)[|s + q| - 1] == q[|q| - 1];
    TrimAround(lead, s + q, "");
    TrimSame(s + q);
    assert lead + (s + q) + "" == lead + (s + q);
  }

  lemma TrimOnlyQuoted(q: string)
    requires |q| >= 2 && q[0] == '"' && q[|q| - 1] == '"'
    ensures TrimSpace(q) == q
  {
    TrimSame(q);
  }

  lemma ConfigIndex(q: string)
    ensures var s := FLAGS + q; |s| >= 17 && IndexFrom(s, "-config ", 0) == Some(9) && s[17..] == q
  {
    var front, sub := "--backup -config ", "-config ";
    var s := front + q;
    assert s[9..17] == sub;
    assert OccursAt(s, sub, 9);
    forall i | 0 <= i < 9
      ensures !OccursAt(s, sub, i)
    {
      assert front[i] != sub[0] || front[i + 1] != sub[1];
      assert s[i..i + 8][0] == front[i] && s[i..i + 8][1] == front[i + 1];
    }
  }

  lemma QuotedAlone(s: string)
    ensures TrimSpace(InQuotes(s)) == InQuotes(s) && Extracted(InQuotes(s)) == Some((s, ""))
  {
    hide *;
    QuoteEnds(s);
    QuotedRoundTrip(s, "");
    TrimOnlyQuoted(InQuotes(s));
    assert InQuotes(s) + "" == InQuotes(s);
  }

  lemma ReadConfigPart(exe: string, config: string)
    ensures ReadConfig(exe, FLAGS + InQuotes(config)) == Some((exe, config))
  {
    hide *;
    QuotedAlone(config);
    ConfigIndex(InQuotes(config));
    ReadConfigStep(exe, FLAGS + InQuotes(config), InQuotes(config), config);
  }

  lemma ReadConfigStep(exe: string, s: string, q: string, config: string)
    requires IndexFrom(s, "-config ", 0) == Some(9) && |s| >= 17 && s[17..] == q
    requires TrimSpace(q) == q && Extracted(q) == Some((config, ""))
    ensures ReadConfig(exe, s) == Some((exe, config))
  {
    hide TrimSpace, IndexFrom, Extracted;
  }

  const FLAGS := "--backup -config "

  lemma ReadExePart(exe: string, config: string)
    ensures ReadExe(InQuotes(exe) + (" " + (FLAGS + InQuotes(config)))) == Some((exe, config))
  {
    QuoteEnds(config);
    ReadConfigPart(exe, config);
    ReadExeStep(exe, FLAGS, InQuotes(config));
  }

  lemma ReadExeStep(exe: string, flags: string, q: string)
    requires flags != "" && !IsSpace(flags[0]) && q != "" && q[|q| - 1] == '"'
    ensures ReadExe(InQuotes(exe) + (" " + (flags + q))) == ReadConfig(exe, flags + q)
  {
    QuotedRoundTrip(exe, " " + (flags + q));
    hide InQuotes, TrimSpace, Extracted, ReadConfig;
    TrimQuoted(" ", flags, q);
  }

  /** What follows `cd /d `. */
  function AfterCd(workDir: string, exe: string, config: string): string {
    InQuotes(workDir) + (" && " + (InQuotes(exe) + (" " + (FLAGS + InQuotes(config)))))
  }

  lemma ReadAfterCdPart(workDir: string, exe: string, config: string)
    ensures ReadAfterCd(AfterCd(workDir, exe, config)) == Some((exe, config))
  {
    QuoteEnds(exe); QuoteEnds(config);
    ReadExePart(exe, config);
    hide InQuotes, ReadExe, ReadAfterCd, TrimSpace;
    TrimTail(InQuotes(exe), " " + FLAGS, InQuotes(config));
    Assoc(" ", FLAGS, InQuotes(config));
    ReadDirStep(workDir, InQuotes(exe) + (" " + (FLAGS + InQuotes(config))));
  }

  lemma ReadDirStep(workDir: string, tail: string)
    requires TrimSpace(tail) == tail && TrimSpace(" && " + tail) == "&& " + tail
    ensures ReadAfterCd(InQuotes(workDir) + (" && " + tail)) == ReadExe(tail)
  {
    QuotedRoundTrip(workDir, " && " + tail);
    hide InQuotes, TrimSpace, Extracted, ReadExe;
    DropFront("&& ", tail);
  }

  lemma TrimTail(e: string, mid: string, q: string)
    requires e != "" && e[0] == '"' && q != "" && q[|q| - 1] == '"'
    ensures var tail := e + (mid + q); TrimSpace(tail) == tail && TrimSpace(" && " + tail) == "&& " + tail
  {
    hide TrimSpace;
    var tail := e + (mid + q);
    Assoc(e, mid, q);
    TrimQuoted("", e + mid, q);
    Assoc("&& ", e + mid, q);
    TrimQuoted(" ", "&& " + (e + mid), q);
    Assoc(" ", "&& ", tail);
    assert " " + "&& " == " && ";
  }

  lemma PlannedParts(workDir: string, exe: string, config: string)
    ensures PlannedTaskRun(workDir, exe, config) == "cmd.exe /c cd /d " + AfterCd(workDir, exe, config)
  {
    hide InQuotes;
    assert "cmd.exe /c cd /d " == "cmd.exe " + "/c cd /d " && " --backup -config " == " " + FLAGS;
  }

  lemma AfterCdIsTrimmed(workDir: string, exe: string, config: string)
    ensures TrimSpace(AfterCd(workDir, exe, config)) == AfterCd(workDir, exe, config)
  {
    QuoteEnds(workDir); QuoteEnds(config);
    hide InQuotes, TrimSpace;
    var front := InQuotes(workDir) + (" && " + (InQuotes(exe) + (" " + FLAGS)));
    assert AfterCd(workDir, exe, config) == front + InQuotes(config);
    TrimQuoted("", front, InQuotes(config));
  }

  lemma HasAmpersands(cd: string, d: string, tail: string)
    ensures Contains(cd + (d + (" && " + tail)), " && ")
  {
    var all, k := cd + (d + (" && " + tail)), |cd + d|;
    assert all[k..k + 4] == " && ";
    assert OccursAt(all, " && ", k);
  }

  lemma PlannedContains(cd: string, workDir: string, exe: string, config: string)
    ensures Contains(cd + AfterCd(workDir, exe, config), " && ")
  {
    hide InQuotes, Contains;
    HasAmpersands(cd, InQuotes(workDir), InQuotes(exe) + (" " + (FLAGS + InQuotes(config))));
  }

  /** The command that is stored is read back as the executable and configuration it was built from, for all
      paths, also such as contain quotes or " && ". */
  lemma CommandRoundTrip(workDir: string, exe: string, config: string)
    ensures ReadCommand(PlannedTaskRun(workDir, exe, config)) == Some((exe, config))
  {
    PlannedParts(workDir, exe, config);
    AfterCdIsTrimmed(workDir, exe, config);
    PlannedContains("cmd.exe /c cd /d ", workDir, exe, config);
    ReadAfterCdPart(workDir, exe, config);
    hide PlannedTaskRun, AfterCd, ReadAfterCd, TrimSpace, Contains;
    var cd, body := "cmd.exe /c cd /d ", AfterCd(workDir, exe, config);
    assert (cd + body)[|cd|..] == body;
  }

  /** So is the same command behind `cmd` without its suffix. */
  lemma ShortCommandRoundTrip(workDir: string, exe: string, config: string)
    ensures ReadCommand("cmd /c cd /d " + AfterCd(workDir, exe, config)) == Some((exe, config))
  {
    AfterCdIsTrimmed(workDir, exe, config);
    PlannedContains("cmd /c cd /d ", workDir, exe, config);
    ReadAfterCdPart(workDir, exe, config);
    hide AfterCd, ReadAfterCd, TrimSpace, Contains;
    var cd, body := "cmd /c cd /d ", AfterCd(workDir, exe, config);
    NotPrefix("cmd.exe /c cd /d ", cd + body, 3);
    assert (cd + body)[|cd|..] == body;
  }

  // ----- The older formats --------------------------------------------------

  /** The text up to the next quote, where a quote behind a backslash stands for itself. */
  function ReadBackslashed(t: string): (r: Option<(string, string)>)
    ensures r.Some? ==> |r.value.1| < |t| && r.value.1 == t[|t| - |r.value.1|..]
    decreases |t|
  {
    if t == "" then None
    else if |t| > 1 && t[0] == '\\' && t[1] == '"' then Prepend("\"", ReadBackslashed(t[2..]))
    else if t[0] == '"' then Some(("", t[1..]))
    else Prepend([t[0]], ReadBackslashed(t[1..]))
  }

  /** The texts from `\"` to the next closing quote; the character behind that is passed over. */
  function BackslashQuoted(s: string): seq<string>
    decreases |s|
  {
    if |s| < 2 then []
    else if s[0] != '\\' || s[1] != '"' then BackslashQuoted(s[1..])
    else
      var r := ReadBackslashed(s[2..]);
      if r.None? then []
      else [r.value.0] + if r.value.1 == "" then [] else BackslashQuoted(r.value.1[1..])
  }

  function QuotedFrom(s: string, i: nat): seq<string> { if i <= |s| then BackslashQuoted(s[i..]) else [] }

  lemma QuotedStep(s: string, i: nat)
    requires i + 1 < |s|
    ensures s[i] != '\\' || s[i + 1] != '"' ==> QuotedFrom(s, i) == QuotedFrom(s, i + 1)
    ensures s[i] == '\\' && s[i + 1] == '"' ==> QuotedFrom(s, i) == QuotedThere(s, i + 2)
  {
    assert s[i..][1..] == s[i + 1..] && s[i..][2..] == s[i + 2..];
  }

  function QuotedThere(s: string, i: nat): seq<string>
    requires i <= |s|
  {
    var r := ReadBackslashed(s[i..]);
    if r.None? then [] else [r.value.0] + QuotedFrom(s, |s| - |r.value.1| + 1)
  }

  method ExtractBackslashQuotedPaths(s: string) returns (out: seq<string>)
    ensures out == BackslashQuoted(s)
  {
    hide BackslashQuoted, ReadBackslashed;
    out := [];
    var i := 0;
    assert s[0..] == s;
    while i + 1 < |s|
      invariant 0 <= i && BackslashQuoted(s) == out + QuotedFrom(s, i)
    {
      QuotedStep(s, i);
      if s[i] != '\\' || s[i + 1] != '"' {
        i := i + 1;
        continue;
      }
      var text, j, ok := ReadOn(s, i + 2);
      if ok { out := out + [text]; }
      i := j + 1;
    }
    NoneQuoted(s, i);
  }

  lemma NoneQuoted(s: string, i: nat)
    requires i + 1 >= |s|
    ensures QuotedFrom(s, i) == []
  {}

  lemma BackslashStep(s: string, i: nat)
    requires i < |s|
    ensures ReadBackslashed(s[i..]) ==
      if s[i] == '\\' && i + 1 < |s| && s[i + 1] == '"' then Prepend("\"", ReadBackslashed(s[i + 2..]))
      else if s[i] == '"' then Some(("", s[i + 1..]))
      else Prepend([s[i]], ReadBackslashed(s[i + 1..]))
  {
    assert s[i..][1..] == s[i + 1..];
    if i + 1 < |s| { assert s[i..][2..] == s[i + 2..]; }
  }

  /** The inner loop: the text from `from` on, and where the reading ended. */
  method ReadOn(s: string, from: nat) returns (text: string, i: nat, ok: bool)
    requires from <= |s|
    ensures from <= i <= |s| && (ok <==> ReadBackslashed(s[from..]).Some?)
    ensures if ok then ReadBackslashed(s[from..]) == Some((text, s[i..])) else i == |s|
  {
    NothingQuoted();
    hide Prepend, ReadBackslashed;
    i := from;
    text := "";
    PrependJoins("", "", ReadBackslashed(s[from..]));
    while i < |s|
      invariant from <= i <= |s| && ReadBackslashed(s[from..]) == Prepend(text, ReadBackslashed(s[i..]))
    {
      BackslashStep(s, i);
      if s[i] == '\\' && i + 1 < |s| && s[i + 1] == '"' {
        PrependJoins(text, "\"", ReadBackslashed(s[i + 2..]));
        text := text + "\"";
        i := i + 2;
        continue;
      }
      if s[i] == '"' {
        PrependEnd(text, s[i + 1..]);
        return text, i + 1, true;
      }
      PrependJoins(text, [s[i]], ReadBackslashed(s[i + 1..]));
      text := text + [s[i]];
      i := i + 1;
    }
    PrependEnd(text, "");
    return text, i, false;
  }

  lemma NothingQuoted()
    ensures ReadBackslashed("") == None
  {}

  /** Where the next quote without a backslash before it is; the length of the text if there is none. */
  function ClosingQuote(s: string, quote: char, i: nat): (e: nat)
    requires 1 <= i <= |s|
    ensures i <= e <= |s| && forall k :: i <= k < e ==> !(s[k] == quote && s[k - 1] != '\\')
    ensures e < |s| ==> s[e] == quote && s[e - 1] != '\\'
    decreases |s| - i
  {
    if i == |s| || (s[i] == quote && s[i - 1] != '\\') then i else ClosingQuote(s, quote, i + 1)
  }

  method FindClosingQuote(s: string) returns (e: nat)
    requires s != ""
    ensures 1 <= e <= |s| && forall k :: 1 <= k < e ==> !(s[k] == s[0] && s[k - 1] != '\\')
    ensures e < |s| ==> s[e] == s[0] && s[e - 1] != '\\'
    ensures e == ClosingQuote(s, s[0], 1)
  {
    e := 1;
    while e < |s|
      invariant 1 <= e <= |s| && ClosingQuote(s, s[0], 1) == ClosingQuote(s, s[0], e)
    {
      if s[e] == s[0] && s[e - 1] != '\\' { break; }
      e := e + 1;
    }
  }

  predicate StartsQuoted(s: string) { s != "" && (s[0] == '"' || s[0] == '\'') }

  /** Format 2: the executable in quotes at the start, the configuration in quotes behind `-config`. */
  function ReadDirect(rest: string): Option<(string, string)> {
    if !StartsQuoted(rest) then None else
    var e := ClosingQuote(rest, rest[0], 1);
    if e == |rest| then None else ReadFlag(rest[1..e], TrimSpace(rest[e + 1..]))
  }

  function ReadFlag(exe: string, tail: string): Option<(string, string)> {
    var idx := IndexFrom(tail, "-config", 0);
    if idx.None? then None else
    var config := TrimSpace(tail[idx.value + 7..]);
    if |config| < 2 || !StartsQuoted(config) then None else
    var f := ClosingQuote(config, config[0], 1);
    Some((exe, if f < |config| then config[1..f] else ""))
  }

  /** Formats 1b and 2 of `windowsTaskGetCommand`. */
  function ReadOlder(rest: string): Option<(string, string)> {
    var quoted := BackslashQuoted(rest);
    if "cmd " <= rest && Contains(rest, "cd /d ") && Contains(rest, " && ") && |quoted| >= 3 then Some((quoted[1], quoted[2]))
    else ReadDirect(rest)
  }

  lemma {:induction false} ThroughPath(w: string, t: string)
    requires '"' !in w && t != "" && t[0] != '"'
    ensures ReadBackslashed(w + t) == Prepend(w, ReadBackslashed(t))
    decreases |w|
  {
    hide Prepend;
    if w == "" {
      assert w + t == t;
      PrependJoins("", "", ReadBackslashed(t));
    } else {
      assert (w + t)[1..] == w[1..] + t;
      assert (w + t)[1] != '"';
      ThroughPath(w[1..], t);
      PrependJoins([w[0]], w[1..], ReadBackslashed(t));
      assert [w[0]] + w[1..] == w;
    }
  }

  lemma ThroughEscape(t: string)
    ensures ReadBackslashed("\\\"" + t) == Prepend("\"", ReadBackslashed(t))
  {
    assert ("\\\"" + t)[2..] == t;
  }

  const ESC := "\\\""

  /** The older command as it is documented: one quoted argument, with the paths in it between `\"` and `\"`. */
  function LegacyBody(workDir: string, exe: string, config: string): string {
    workDir + (ESC + (" && " + (ESC + (exe + (ESC + (" --backup -config " + (ESC + (config + (ESC + "\"")))))))))
  }

  function LegacyRun(workDir: string, exe: string, config: string): string {
    "cmd /c \"cd /d " + (ESC + LegacyBody(workDir, exe, config))
  }

  predicate ReadToEnd(t: string) { ReadBackslashed(t).Some? && ReadBackslashed(t).value.1 == "" }

  lemma EndThrough(w: string, t: string)
    requires '"' !in w && t != "" && t[0] != '"' && ReadToEnd(t)
    ensures ReadToEnd(w + t)
  {
    hide ReadBackslashed;
    ThroughPath(w, t);
  }

  lemma EndEscape(t: string)
    requires ReadToEnd(t)
    ensures ReadToEnd(ESC + t)
  {
    hide ReadBackslashed;
    ThroughEscape(t);
  }

  lemma {:induction false} NoBackslash(a: string, rest: string)
    requires '\\' !in a && rest != ""
    ensures BackslashQuoted(a + rest) == BackslashQuoted(rest)
  {
    if a == "" {
      assert a + rest == rest;
    } else {
      assert (a + rest)[1..] == a[1..] + rest;
      NoBackslash(a[1..], rest);
    }
  }

  lemma LegacyEnds(workDir: string, exe: string, config: string)
    requires '"' !in workDir && '"' !in exe && '"' !in config
    ensures ReadToEnd(LegacyBody(workDir, exe, config))
  {
    assert ReadToEnd("\"") by { assert "\""[1..] == ""; }
    hide ReadToEnd;
    var c := ESC + "\"";
    EndEscape("\"");
    EndThrough(config, c);
    EndEscape(config + c);
    var f := ESC + (config + c);
    EndThrough(" --backup -config ", f);
    EndEscape(" --backup -config " + f);
    var e := ESC + (" --backup -config " + f);
    EndThrough(exe, e);
    EndEscape(exe + e);
    EndThrough(" && ", ESC + (exe + e));
    EndEscape(" && " + (ESC + (exe + e)));
    EndThrough(workDir, ESC + (" && " + (ESC + (exe + e))));
  }

  lemma OneQuoted(front: string, body: string)
    requires '\\' !in front && ReadToEnd(body)
    ensures |BackslashQuoted(front + (ESC + body))| == 1
  {
    hide ReadBackslashed;
    NoBackslash(front, ESC + body);
    assert (ESC + body)[2..] == body;
  }

  lemma NotPlanned(run: string)
    requires |run| > 8 && run[0] == 'c' && run[3] == ' ' && run[7] == '"' && |BackslashQuoted(run)| < 3
    ensures ReadCommand(run).None? && ReadOlder(run).None?
  {
    hide BackslashQuoted, Contains, ReadAfterCd, TrimSpace;
    var long, short := "cmd.exe /c cd /d ", "cmd /c cd /d ";
    NotPrefix(long, run, 3);
    NotPrefix(short, run, 7);
  }

  lemma NotPrefix(p: string, s: string, k: nat)
    requires k < |p| && k < |s| && p[k] != s[k]
    ensures !(p <= s)
  {}

  /** The older command is not read: everything in it is taken for a single path, so there are
      never three of them. */
  lemma LegacyIsNotRead(workDir: string, exe: string, config: string)
    requires '"' !in workDir && '"' !in exe && '"' !in config
    ensures ReadCommand(LegacyRun(workDir, exe, config)).None? && ReadOlder(LegacyRun(workDir, exe, config)).None?
  {
    hide LegacyBody, ReadToEnd, BackslashQuoted, ReadCommand, ReadOlder;
    LegacyEnds(workDir, exe, config);
    OneQuoted("cmd /c \"cd /d ", LegacyBody(workDir, exe, config));
    NotPlanned(LegacyRun(workDir, exe, config));
  }

  /** A path that format 2 can hold in quotes `q`. */
  predicate Direct(q: char, s: string) { q !in s && (s == "" || s[|s| - 1] != '\\') }

  predicate IsQuote(q: char) { q == '"' || q == '\'' }

  lemma DirectCloses(q: char, p: string, rest: string)
    requires Direct(q, p) && q != '\\'
    ensures var s := [q] + p + [q] + rest; var e := |p| + 1;
      s[0] == q && ClosingQuote(s, q, 1) == e && s[1..e] == p && s[e + 1..] == rest
  {
    var s, e := [q] + p + [q] + rest, |p| + 1;
    assert s[e] == q && s[e - 1] != '\\';
    assert forall k :: 1 <= k < e ==> s[k] == p[k - 1];
  }

  lemma FlagIndex(q: string)
    ensures var s := FLAGS + q; |s| >= 16 && IndexFrom(s, "-config", 0) == Some(9) && s[16..] == " " + q
  {
    var front, sub := "--backup -config ", "-config";
    var s := front + q;
    assert s[9..16] == sub;
    assert OccursAt(s, sub, 9);
    forall i | 0 <= i < 9
      ensures !OccursAt(s, sub, i)
    {
      assert front[i] != sub[0] || front[i + 1] != sub[1];
      assert s[i..i + 7][0] == front[i] && s[i..i + 7][1] == front[i + 1];
    }
  }

  /** The command in format 2, with the paths in quotes `q` and `r`. */
  function DirectRun(q: char, exe: string, r: char, config: string): string {
    [q] + exe + [q] + (" " + ("--backup -config " + ([r] + config + [r])))
  }

  lemma FlagIsRead(exe: string, r: char, config: string)
    requires IsQuote(r) && Direct(r, config)
    ensures ReadFlag(exe, FLAGS + ([r] + config + [r])) == Some((exe, config))
  {
    hide TrimSpace, IndexFrom, ClosingQuote, Direct;
    var q := [r] + config + [r];
    assert q == q + "";
    DirectCloses(r, config, "");
    FlagIndex(q);
    TrimQuoted(" ", [r] + config, [r]);
  }

  /** Format 2 is read back for paths without their quotes that do not end in a backslash. */
  lemma DirectRoundTrip(q: char, exe: string, r: char, config: string)
    requires IsQuote(q) && IsQuote(r) && Direct(q, exe) && Direct(r, config)
    ensures ReadDirect(DirectRun(q, exe, r, config)) == Some((exe, config))
  {
    hide TrimSpace, ReadFlag, ClosingQuote, Direct;
    var c := [r] + config + [r];
    DirectCloses(q, exe, " " + (FLAGS + c));
    TrimQuoted(" ", FLAGS, c);
    FlagIsRead(exe, r, config);
  }

  /** What the three formats together make of a command. */
  function ReadRun(run: string): Option<(string, string)> {
    if ReadCommand(run).Some? then ReadCommand(run) else ReadOlder(run)
  }

  lemma DirectIsRead(q: char, exe: string, r: char, config: string)
    requires IsQuote(q) && IsQuote(r) && Direct(q, exe) && Direct(r, config)
    ensures ReadRun(DirectRun(q, exe, r, config)) == Some((exe, config))
  {
    var run := DirectRun(q, exe, r, config);
    assert run[0] == q;
    DirectRoundTrip(q, exe, r, config);
    hide DirectRun, ReadDirect, BackslashQuoted, ReadAfterCd, Contains, TrimSpace;
    NotPrefix("cmd.exe /c cd /d ", run, 0);
    NotPrefix("cmd /c cd /d ", run, 0);
    NotPrefix("cmd ", run, 0);
  }

  // ----- Backslash before the opening quotes only ---------------------------

  /** A path between `\"` and the next quote is found, and the character behind that is passed over. */
  lemma BackslashPath(front: string, p: string, rest: string)
    requires '\\' !in front && Direct('"', p)
    ensures BackslashQuoted(front + (ESC + (p + ("\"" + rest)))) == [p] + if rest == "" then [] else BackslashQuoted(rest[1..])
  {
    var body := p + ("\"" + rest);
    NoBackslash(front, ESC + body);
    ToQuote(p, rest);
    hide ReadBackslashed;
    assert (ESC + body)[2..] == body;
  }

  lemma {:induction false} ToQuote(p: string, rest: string)
    requires Direct('"', p)
    ensures ReadBackslashed(p + ("\"" + rest)) == Some((p, rest))
    decreases |p|
  {
    var t := p + ("\"" + rest);
    if p == "" {
      assert t == "\"" + rest && t[1..] == rest;
    } else {
      assert t[1..] == p[1..] + ("\"" + rest);
      assert t[0] == p[0] && (t[0] == '\\' ==> t[1] == p[1]);
      ToQuote(p[1..], rest);
      assert [p[0]] + p[1..] == p;
    }
  }

  /** The command in format 1b that is read: `\"` before each path, a plain quote behind it. */
  function EscapedRun(workDir: string, exe: string, config: string): string {
    "cmd /c \"cd /d " + (ESC + (workDir + ("\"" + (" && " + (ESC + (exe + ("\"" + (" --backup -config " + (ESC + (config + ("\"" + "")))))))))))
  }

  lemma EscapedIsRead(workDir: string, exe: string, config: string)
    requires Direct('"', workDir) && Direct('"', exe) && Direct('"', config)
    ensures ReadRun(EscapedRun(workDir, exe, config)) == Some((exe, config))
  {
    var run := EscapedRun(workDir, exe, config);
    EscapedShape(workDir, exe, config);
    EscapedPaths(workDir, exe, config);
    hide EscapedRun, BackslashQuoted, Contains, ReadAfterCd, TrimSpace, ReadDirect;
    NotPrefix("cmd.exe /c cd /d ", run, 3);
    NotPrefix("cmd /c cd /d ", run, 7);
  }

  lemma EscapedShape(workDir: string, exe: string, config: string)
    ensures var run := EscapedRun(workDir, exe, config);
      "cmd " <= run && |run| > 8 && run[3] == ' ' && run[7] == '"' && Contains(run, "cd /d ") && Contains(run, " && ")
  {
    var tail := ESC + (exe + ("\"" + (" --backup -config " + (ESC + (config + ("\"" + ""))))));
    EscapedFront(ESC + (workDir + "\"") + (" && " + tail));
    HasAmpersands("cmd /c \"cd /d ", ESC + (workDir + "\""), tail);
    hide Contains;
    assert ESC + (workDir + "\"") + (" && " + tail) == ESC + (workDir + ("\"" + (" && " + tail)));
  }

  lemma EscapedFront(rest: string)
    ensures var run := "cmd /c \"cd /d " + rest; "cmd " <= run && |run| > 8 && run[3] == ' ' && run[7] == '"' && Contains(run, "cd /d ")
  {
    var front := "cmd /c \"cd /d ";
    var run := front + rest;
    assert front[8..14] == "cd /d " && run[8..14] == front[8..14];
    assert OccursAt(run, "cd /d ", 8);
  }

  lemma EscapedPaths(workDir: string, exe: string, config: string)
    requires Direct('"', workDir) && Direct('"', exe) && Direct('"', config)
    ensures BackslashQuoted(EscapedRun(workDir, exe, config)) == [workDir, exe, config]
  {
    hide *;
    LastPath(config);
    NextPath("&& ", exe, " --backup -config " + (ESC + (config + ("\"" + ""))), "--backup -config " + (ESC + (config + ("\"" + ""))));
    FirstPath(workDir, exe, config);
  }

  lemma FirstPath(workDir: string, exe: string, config: string)
    requires Direct('"', workDir)
    ensures var second := "&& " + (ESC + (exe + ("\"" + (" --backup -config " + (ESC + (config + ("\"" + "")))))));
      BackslashQuoted(EscapedRun(workDir, exe, config)) == [workDir] + BackslashQuoted(second)
  {
    hide BackslashQuoted, Direct;
    var second := ESC + (exe + ("\"" + (" --backup -config " + (ESC + (config + ("\"" + ""))))));
    BackslashPath("cmd /c \"cd /d ", workDir, " && " + second);
    assert (" && " + second)[1..] == "&& " + second;
  }

  lemma NextPath(front: string, p: string, rest: string, left: string)
    requires '\\' !in front && Direct('"', p) && rest != "" && rest[1..] == left
    ensures BackslashQuoted(front + (ESC + (p + ("\"" + rest)))) == [p] + BackslashQuoted(left)
  {
    hide BackslashQuoted, Direct;
    BackslashPath(front, p, rest);
  }

  lemma LastPath(config: string)
    requires Direct('"', config)
    ensures BackslashQuoted("--backup -config " + (ESC + (config + ("\"" + "")))) == [config]
    ensures (" --backup -config " + (ESC + (config + ("\"" + ""))))[1..] == "--backup -config " + (ESC + (config + ("\"" + "")))
    ensures '\\' !in "&& "
  {
    hide BackslashQuoted, Direct;
    BackslashPath("--backup -config ", config, "");
  }

  // ----- The listing --------------------------------------------------------

  const TASK := "Task To Run:"

  /** The command in one line of the listing, if there is one. */
  function ReadLine(line: string): Option<(string, string)> {
    var l := TrimSpace(line);
    if !(TASK <= l) then None else
    var rest := TrimSpace(l[|TASK|..]);
    if |rest| < 2 then None else
    ReadRun(rest)
  }

  /** `strings.Split(s, "\n")` */
  function SplitLines(s: string): (r: seq<string>)
    ensures |r| >= 1
  {
    if s == "" then [""]
    else
      var rest := SplitLines(s[1..]);
      if s[0] == '\n' then [""] + rest else [[s[0]] + rest[0]] + rest[1..]
  }

  function JoinLines(lines: seq<string>): string
    requires |lines| >= 1
  {
    if |lines| == 1 then lines[0] else lines[0] + "\n" + JoinLines(lines[1..])
  }

  lemma {:induction false} SplitFirst(l: string, rest: string)
    requires OneLine(l)
    ensures SplitLines(l + "\n" + rest) == [l] + SplitLines(rest)
    decreases |l|
  {
    var s := l + "\n" + rest;
    if l == "" {
      assert s[1..] == rest;
    } else {
      assert s[1..] == l[1..] + "\n" + rest;
      SplitFirst(l[1..], rest);
      assert [l[0]] + l[1..] == l;
    }
  }

  lemma {:induction false} SplitOnly(l: string)
    requires OneLine(l)
    ensures SplitLines(l) == [l]
  {
    if l != "" {
      SplitOnly(l[1..]);
      assert [l[0]] + l[1..] == l;
    }
  }

  lemma {:induction false} SplitJoin(lines: seq<string>)
    requires |lines| >= 1 && forall l :: l in lines ==> OneLine(l)
    ensures SplitLines(JoinLines(lines)) == lines
    decreases |lines|
  {
    assert lines[0] in lines;
    if |lines| == 1 {
      SplitOnly(lines[0]);
    } else {
      SplitJoin(lines[1..]);
      SplitFirst(lines[0], JoinLines(lines[1..]));
    }
  }

  /** The first command there is in the lines of a listing. */
  function ReadTask(lines: seq<string>): Option<(string, string)> {
    if lines == [] then None else
    var first := ReadLine(lines[0]);
    if first.Some? then first else ReadTask(lines[1..])
  }

  /** `windowsTaskGetCommand` on the output of the task scheduler. */
  method WindowsTaskGetCommand(output: string) returns (r: Option<(string, string)>)
    ensures r == ReadTask(SplitLines(output))
  {
    hide ReadLine;
    var lines := SplitLines(output);
    for i := 0 to |lines|
      invariant ReadTask(lines) == ReadTask(lines[i..])
    {
      assert lines[i..][1..] == lines[i + 1..];
      r := ReadLine(lines[i]);
      if r.Some? { return; }
    }
    r := None;
  }

  lemma {:induction false} ReadTaskSkips(before: seq<string>, lines: seq<string>)
    requires forall l :: l in before ==> ReadLine(l).None?
    ensures ReadTask(before + lines) == ReadTask(lines)
  {
    hide ReadLine;
    if before == [] {
      assert before + lines == lines;
    } else {
      assert (before + lines)[1..] == before[1..] + lines;
      ReadTaskSkips(before[1..], lines);
    }
  }

  /** The line the scheduler prints for a task, with any blanks around its parts, is read as its command is, wherever it
      stands in the listing behind lines without a command. */
  lemma TaskIsRead(before: seq<string>, lead: string, pad: string, trail: string, after: seq<string>, run: string)
    requires OneLine(run) && Trimmed(run) && |run| >= 2 && ReadRun(run).Some?
    requires Blank(lead) && Blank(pad) && Blank(trail) && OneLine(lead) && OneLine(pad) && OneLine(trail)
    requires (forall l :: l in before ==> OneLine(l) && ReadLine(l).None?) && forall l :: l in after ==> OneLine(l)
    ensures var line := lead + "Task To Run:" + pad + run + trail;
      ReadTask(SplitLines(JoinLines(before + [line] + after))) == ReadRun(run)
  {
    hide *;
    var line := lead + "Task To Run:" + pad + run + trail;
    LineIsRead(lead, pad, trail, run);
    LineIsOne(lead, pad, trail, run);
    ListingIsRead(before, line, after);
  }

  lemma LineIsOne(lead: string, pad: string, trail: string, run: string)
    requires OneLine(lead) && OneLine(pad) && OneLine(trail) && OneLine(run)
    ensures OneLine(lead + "Task To Run:" + pad + run + trail)
  {
    assert OneLine(TASK);
  }

  lemma ListingIsRead(before: seq<string>, line: string, after: seq<string>)
    requires OneLine(line) && ReadLine(line).Some?
    requires (forall l :: l in before ==> OneLine(l) && ReadLine(l).None?) && forall l :: l in after ==> OneLine(l)
    ensures ReadTask(SplitLines(JoinLines(before + [line] + after))) == ReadLine(line)
  {
    hide ReadLine, OneLine, SplitLines, JoinLines;
    SplitJoin(before + [line] + after);
    assert before + [line] + after == before + ([line] + after);
    ReadTaskSkips(before, [line] + after);
  }

  lemma LineIsRead(lead: string, pad: string, trail: string, run: string)
    requires Blank(lead) && Blank(pad) && Blank(trail) && Trimmed(run) && |run| >= 2
    ensures ReadLine(lead + "Task To Run:" + pad + run + trail) == ReadRun(run)
  {
    hide ReadRun, TrimSpace;
    var l := TASK + pad + run;
    assert lead + TASK + pad + run + trail == lead + l + trail;
    assert Trimmed(l) by { assert l[0] == 'T' && l[|l| - 1] == run[|run| - 1]; }
    TrimAround(lead, l, trail);
    assert l[|TASK|..] == pad + run + "";
    TrimAround(pad, run, "");
  }

  /** The line of our task is read as the paths it was built from. */
  lemma TaskRoundTrip(before: seq<string>, lead: string, pad: string, trail: string, after: seq<string>,
                      workDir: string, exe: string, config: string)
    requires OneLine(workDir) && OneLine(exe) && OneLine(config)
    requires Blank(lead) && Blank(pad) && Blank(trail) && OneLine(lead) && OneLine(pad) && OneLine(trail)
    requires (forall l :: l in before ==> OneLine(l) && ReadLine(l).None?) && forall l :: l in after ==> OneLine(l)
    ensures var line := lead + "Task To Run:" + pad + PlannedTaskRun(workDir, exe, config) + trail;
      ReadTask(SplitLines(JoinLines(before + [line] + after))) == Some((exe, config))
  {
    hide *;
    PlannedIsTrimmed(workDir, exe, config);
    PlannedIsOneLine(workDir, exe, config);
    CommandRoundTrip(workDir, exe, config);
    RunOfCommand(PlannedTaskRun(workDir, exe, config));
    TaskIsRead(before, lead, pad, trail, after, PlannedTaskRun(workDir, exe, config));
  }

  lemma RunOfCommand(run: string)
    requires ReadCommand(run).Some?
    ensures ReadRun(run) == ReadCommand(run)
  {
    hide ReadCommand, ReadOlder;
  }

  /** So are the lines of tasks in the two older formats, as far as these are read. */
  lemma OlderRoundTrip(before: seq<string>, lead: string, pad: string, trail: string, after: seq<string>,
                       workDir: string, q: char, exe: string, r: char, config: string)
    requires OneLine(workDir) && OneLine(exe) && OneLine(config) && IsQuote(q) && IsQuote(r)
    requires Blank(lead) && Blank(pad) && Blank(trail) && OneLine(lead) && OneLine(pad) && OneLine(trail)
    requires (forall l :: l in before ==> OneLine(l) && ReadLine(l).None?) && forall l :: l in after ==> OneLine(l)
    ensures Direct(q, exe) && Direct(r, config) ==>
      var line := lead + "Task To Run:" + pad + DirectRun(q, exe, r, config) + trail;
      ReadTask(SplitLines(JoinLines(before + [line] + after))) == Some((exe, config))
    ensures Direct('"', workDir) && Direct('"', exe) && Direct('"', config) ==>
      var line := lead + "Task To Run:" + pad + EscapedRun(workDir, exe, config) + trail;
      ReadTask(SplitLines(JoinLines(before + [line] + after))) == Some((exe, config))
  {
    OlderAreTrimmed(workDir, q, exe, r, config);
    hide *;
    if Direct(q, exe) && Direct(r, config) {
      DirectIsRead(q, exe, r, config);
      TaskIsRead(before, lead, pad, trail, after, DirectRun(q, exe, r, config));
    }
    if Direct('"', workDir) && Direct('"', exe) && Direct('"', config) {
      EscapedIsRead(workDir, exe, config);
      TaskIsRead(before, lead, pad, trail, after, EscapedRun(workDir, exe, config));
    }
  }

  lemma OlderAreTrimmed(workDir: string, q: char, exe: string, r: char, config: string)
    requires OneLine(workDir) && OneLine(exe) && OneLine(config) && IsQuote(q) && IsQuote(r)
    ensures var run := DirectRun(q, exe, r, config); Trimmed(run) && |run| >= 2 && OneLine(run)
    ensures var run := EscapedRun(workDir, exe, config); Trimmed(run) && |run| >= 2 && OneLine(run)
  {
    DirectIsTrimmed(q, exe, r, config);
    EscapedIsTrimmed(workDir, exe, config);
  }

  lemma DirectIsTrimmed(q: char, exe: string, r: char, config: string)
    requires OneLine(exe) && OneLine(config) && IsQuote(q) && IsQuote(r)
    ensures var run := DirectRun(q, exe, r, config); Trimmed(run) && |run| >= 2 && OneLine(run)
  {
    var run := DirectRun(q, exe, r, config);
    assert run[0] == q && run[|run| - 1] == r;
    assert OneLine("--backup -config ");
  }

  lemma EscapedIsTrimmed(workDir: string, exe: string, config: string)
    requires OneLine(workDir) && OneLine(exe) && OneLine(config)
    ensures var run := EscapedRun(workDir, exe, config); Trimmed(run) && |run| >= 2 && OneLine(run)
  {
    var run := EscapedRun(workDir, exe, config);
    assert run[0] == 'c' && run[|run| - 1] == '"';
    assert OneLine("cmd /c \"cd /d ") && OneLine(" && ") && OneLine(" --backup -config ") && OneLine(ESC) && OneLine("\"");
  }

  lemma PlannedIsTrimmed(workDir: string, exe: string, config: string)
    ensures var run := PlannedTaskRun(workDir, exe, config); Trimmed(run) && |run| > 2 && !IsSpace(run[|run| - 1])
  {
    hide ReplaceAll;
    var run := PlannedTaskRun(workDir, exe, config);
    assert run[0] == 'c' && run[|run| - 1] == '"';
  }

  lemma {:induction false} EscapedIsOneLine(s: string)
    requires OneLine(s)
    ensures OneLine(PathForTR(s))
  {
    if s != "" { EscapedIsOneLine(s[1..]); }
  }

  lemma PlannedIsOneLine(workDir: string, exe: string, config: string)
    requires OneLine(workDir) && OneLine(exe) && OneLine(config)
    ensures OneLine(PlannedTaskRun(workDir, exe, config))
  {
    EscapedIsOneLine(workDir); EscapedIsOneLine(exe); EscapedIsOneLine(config);
    hide PathForTR;
  }
}
