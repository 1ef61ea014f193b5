/** Text as a sequence of lines: Go's `bufio.ScanLines`, and the writing of lines that it undoes. */
module LineScanner {
  import opened Text

  function DropCR(s: string): string {
    if s != "" && s[|s| - 1] == '\r' then s[..|s| - 1] else s
  }

  /** `bufio.ScanLines`: `line` holds what of the current line is already read. */
  function ScanFrom(line: string, text: string): seq<string>
    decreases |text|
  {
    if text == "" then (if line == "" then [] else [DropCR(line)])
    else if text[0] == '\n' then [DropCR(line)] + ScanFrom("", text[1..])
    else ScanFrom(line + [text[0]], text[1..])
  }

  function ScanLines(text: string): seq<string> { ScanFrom("", text) }

  function Unlines(lines: seq<string>): string {
    if lines == [] then "" else lines[0] + "\n" + Unlines(lines[1..])
  }

  function DropCRs(lines: seq<string>): seq<string> {
    if lines == [] then [] else [DropCR(lines[0])] + DropCRs(lines[1..])
  }

  lemma {:induction false} ScanLine(line: string, l: string, rest: string)
    requires OneLine(l)
    ensures ScanFrom(line, l + "\n" + rest) == [DropCR(line + l)] + ScanLines(rest)
    decreases |l|
  {
    var text := l + "\n" + rest;
    if l == "" {
      assert text[1..] == rest && line + l == line;
    } else {
      assert text[1..] == l[1..] + "\n" + rest;
      ScanLine(line + [l[0]], l[1..], rest);
      assert line + [l[0]] + l[1..] == line + l;
    }
  }

  /** Reading back what was written drops at most carriage returns. */
  lemma {:induction false} ScanUnlines(lines: seq<string>)
    requires forall l :: l in lines ==> OneLine(l)
    ensures ScanLines(Unlines(lines)) == DropCRs(lines)
    decreases |lines|
  {
    if lines != [] {
      assert lines[0] in lines;
      ScanUnlines(lines[1..]);
      ScanLine("", lines[0], Unlines(lines[1..]));
      assert "" + lines[0] == lines[0];
    }
  }

  lemma {:induction false} ScanGivesLines(line: string, text: string)
    requires OneLine(line)
    ensures forall l :: l in ScanFrom(line, text) ==> OneLine(l)
    decreases |text|
  {
    if text != "" {
      if text[0] == '\n' { ScanGivesLines("", text[1..]); } else { ScanGivesLines(line + [text[0]], text[1..]); }
    }
  }

  lemma {:induction false} UnlinesConcat(a: seq<string>, b: seq<string>)
    ensures Unlines(a + b) == Unlines(a) + Unlines(b)
  {
    if a == [] {
      assert a + b == b;
    } else {
      assert (a + b)[1..] == a[1..] + b;
      UnlinesConcat(a[1..], b);
    }
  }

  lemma UnlinesSnoc(a: seq<string>, l: string)
    ensures Unlines(a + [l]) == Unlines(a) + l + "\n"
  {
    UnlinesConcat(a, [l]);
    assert Unlines([l][1..]) == "";
    assert Unlines([l]) == l + "\n";
  }

  lemma UnlinesNone()
    ensures Unlines([]) == ""
  {}

  lemma FirstLineIsUnique(x: string, s: string, y: string, t: string)
    requires OneLine(x) && OneLine(y) && x + "\n" + s == y + "\n" + t
    ensures x == y && s == t
  {
    var text := x + "\n" + s;
    assert text[|x|] == '\n' && text[|y|] == '\n';
    assert text[..|x|] == x && text[..|y|] == y;
    assert text[|x| + 1..] == s && text[|y| + 1..] == t;
  }

  /** Lines can be told from the text they are written as. */
  lemma {:induction false} UnlinesInjective(a: seq<string>, b: seq<string>)
    requires (forall l :: l in a ==> OneLine(l)) && forall l :: l in b ==> OneLine(l)
    requires Unlines(a) == Unlines(b)
    ensures a == b
    decreases |a|
  {
    if a != [] && b != [] {
      assert a[0] in a && b[0] in b;
      FirstLineIsUnique(a[0], Unlines(a[1..]), b[0], Unlines(b[1..]));
      UnlinesInjective(a[1..], b[1..]);
    }
  }

  /** A last line that is not empty is scanned the same without its line break. */
  lemma {:induction false} ScanUnterminated(line: string, text: string)
    requires if text == "" then line != "" else text[|text| - 1] != '\n'
    ensures ScanFrom(line, text + "\n") == ScanFrom(line, text)
    decreases |text|
  {
    if text == "" {
      assert text + "\n" == "\n" && "\n"[1..] == "";
    } else {
      assert (text + "\n")[1..] == text[1..] + "\n";
      ScanUnterminated(if text[0] == '\n' then "" else line + [text[0]], text[1..]);
    }
  }
}
