/** `escapeSQL` of internal/backup/usersql.go against the reading of string literals in
    section 9.1.1 of the MySQL 8.0 Reference Manual (backslash escapes enabled). */
module SqlLiteral {
  import opened Text

  function EscapeSQL(s: string): string {
    ReplaceAll(ReplaceAll(s, '\\', "\\\\"), '\'', "''")
  }

  /** The same in one pass. */
  function EscapeChar(c: char): string {
    if c == '\\' then "\\\\" else if c == '\'' then "''" else [c]
  }

  function EscapeChars(s: string): string {
    if s == "" then "" else EscapeChar(s[0]) + EscapeChars(s[1..])
  }

  /** The order of the two passes does no harm: they equal one pass over the characters. */
  lemma {:induction false} TwoPassesAreOne(s: string)
    ensures EscapeSQL(s) == EscapeChars(s)
  {
    if s != "" {
      TwoPassesAreOne(s[1..]);
      var head := if s[0] == '\\' then "\\\\" else [s[0]];
      ReplaceConcat(head, ReplaceAll(s[1..], '\\', "\\\\"), '\'', "''");
      if s[0] == '\\' {
        assert "\\\\"[1..] == "\\" && "\\"[1..] == "";
        assert ReplaceAll("\\", '\'', "''") == "\\";
      } else {
        assert [s[0]][1..] == "";
      }
    }
  }

  /** A backslash escape. */
  function Unescape(c: char): string {
    match c
    case '0' => [0 as char]
    case 'b' => [8 as char]
    case 'n' => "\n"
    case 'r' => "\r"
    case 't' => "\t"
    case 'Z' => [26 as char]
    case '%' => "\\%"
    case '_' => "\\_"
    case _ => [c]
  }

  /** Reads a literal whose opening quote is already consumed: its value and what follows
      the closing quote. */
  function ReadBody(t: string): Option<(string, string)>
    decreases |t|
  {
    if t == "" then None
    else if t[0] == '\'' then
      if |t| > 1 && t[1] == '\'' then Prepend("'", ReadBody(t[2..])) else Some(("", t[1..]))
    else if t[0] == '\\' then
      if |t| > 1 then Prepend(Unescape(t[1]), ReadBody(t[2..])) else None
    else Prepend([t[0]], ReadBody(t[1..]))
  }

  function ReadLiteral(t: string): Option<(string, string)> {
    if t != "" && t[0] == '\'' then ReadBody(t[1..]) else None
  }

  function Quoted(s: string): string { "'" + EscapeSQL(s) + "'" }

  lemma ReadChar(c: char, rest: string)
    ensures ReadBody(EscapeChar(c) + rest) == Prepend([c], ReadBody(rest))
  {
    var t := EscapeChar(c) + rest;
    assert t[|EscapeChar(c)|..] == rest;
  }

  lemma {:induction false} ReadEscaped(s: string, t: string)
    ensures ReadBody(EscapeChars(s) + t) == Prepend(s, ReadBody(t))
    decreases |s|
  {
    hide ReadBody, EscapeChar, Prepend;
    if s == "" {
      assert EscapeChars(s) + t == t;
      PrependJoins("", "", ReadBody(t));
    } else {
      ReadEscaped(s[1..], t);
      Assoc(EscapeChar(s[0]), EscapeChars(s[1..]), t);
      ReadChar(s[0], EscapeChars(s[1..]) + t);
      PrependJoins([s[0]], s[1..], ReadBody(t));
      assert [s[0]] + s[1..] == s;
    }
  }

  /** A quoted string is read back as itself, up to exactly its closing quote, for every text
      that follows unless that starts with another quote. */
  lemma LiteralRoundTrip(s: string, rest: string)
    ensures ReadLiteral(Quoted(s) + rest) == Some((s, rest)) <==> (rest == "" || rest[0] != '\'')
  {
    TwoPassesAreOne(s);
    hide EscapeSQL;
    assert (Quoted(s) + rest)[1..] == EscapeChars(s) + ("'" + rest);
    ReadEscaped(s, "'" + rest);
    assert ("'" + rest)[1..] == rest;
    if rest != "" && rest[0] == '\'' {
      assert ReadBody("'" + rest) == Prepend("'", ReadBody(("'" + rest)[2..]));
    } else {
      assert s + "" == s;
    }
  }
}
