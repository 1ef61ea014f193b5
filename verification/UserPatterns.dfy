/** The regular expressions of internal/backup/usersql.go. In each of them no two alternatives start
    with the same character, and no repetition can give back a character that what follows it could
    use, so a match is found by reading on; the leftmost place where one begins counts. */
module UserPatterns {
  import opened Text
  import opened UserRecords

  /** `\s` */
  predicate IsBlank(c: char) { c in {'\t', '\n', 12 as char, '\r', ' '} }

  /** The characters of a name without quotes. */
  predicate IsWord(c: char) {
    || 'a' <= c <= 'z' || 'A' <= c <= 'Z' || '0' <= c <= '9' || c == '$' || c == '_'
    || 0x80 <= c as int <= 0xFFFF
  }

  predicate IsQuote(c: char) { c == '`' || c == '"' || c == '\'' }

  /** A character as a capital letter is matched without regard to case; U+017F is a small s. */
  predicate Folds(c: char, w: char) {
    c == w || ('A' <= w <= 'Z' && (c as int == w as int + 32 || (w == 'S' && c as int == 0x17F)))
  }

  function SkipBlanks(t: string): (r: string)
    ensures |r| <= |t| && r == t[|t| - |r|..]
  {
    if t != "" && IsBlank(t[0]) then SkipBlanks(t[1..]) else t
  }

  /** The text before the next `q`, and what follows it. */
  function UpTo(q: char, t: string): (r: Option<(string, string)>)
    ensures r.Some? ==> |r.value.1| < |t|
  {
    if t == "" then None
    else if t[0] == q then Some(("", t[1..]))
    else Prepend([t[0]], UpTo(q, t[1..]))
  }

  function WordOf(t: string): (string, string) {
    if t != "" && IsWord(t[0]) then ([t[0]] + WordOf(t[1..]).0, WordOf(t[1..]).1) else ("", t)
  }

  function ReadQuote(t: string): (r: Option<(string, string)>)
    ensures r.Some? ==> |r.value.1| < |t|
  {
    if t != "" && IsQuote(t[0]) then UpTo(t[0], t[1..]) else None
  }

  /** A name in quotes of any kind, not empty, or without. */
  function ReadName(t: string): Option<(string, string)> {
    if t == "" then None
    else if IsQuote(t[0]) then
      var r := ReadQuote(t);
      if r.Some? && r.value.0 != "" then r else None
    else if IsWord(t[0]) then Some(WordOf(t))
    else None
  }

  /** `userHostRe`, from here. */
  function UserHostHere(t: string): Option<(string, string)> {
    var user := ReadName(t);
    if user.None? then None else
    var at := SkipBlanks(user.value.1);
    if at == "" || at[0] != '@' then None else
    var host := ReadName(SkipBlanks(at[1..]));
    if host.None? then None else Some((user.value.0, host.value.0))
  }

  function FindUserHost(t: string): Option<(string, string)> {
    if UserHostHere(t).Some? then UserHostHere(t)
    else if t == "" then None
    else FindUserHost(t[1..])
  }

  function WordHere(w: string, t: string): (r: Option<string>)
    ensures r.Some? ==> |r.value| <= |t|
  {
    if w == "" then Some(t)
    else if t != "" && Folds(t[0], w[0]) then WordHere(w[1..], t[1..])
    else None
  }

  /** A word and the blanks that must follow it. */
  function After(w: string, t: string): (r: Option<string>)
    ensures r.Some? ==> |r.value| <= |t|
  {
    var r := WordHere(w, t);
    if r.Some? && r.value != "" && IsBlank(r.value[0]) then Some(SkipBlanks(r.value)) else None
  }

  /** `IDENTIFIED BY PASSWORD` and a quoted text, from here. */
  function ClauseHere(t: string): (r: Option<(string, string)>)
    ensures r.Some? ==> |r.value.1| < |t|
  {
    var a := After("IDENTIFIED", t);
    if a.None? then None else
    var b := After("BY", a.value);
    if b.None? then None else
    var c := After("PASSWORD", b.value);
    if c.None? then None else ReadQuote(c.value)
  }

  /** `identifiedByRe` */
  function FindClause(t: string): Option<string> {
    if ClauseHere(t).Some? then Some(ClauseHere(t).value.0)
    else if t == "" then None
    else FindClause(t[1..])
  }

  /** `stripIdentRe`, every match replaced by nothing. */
  function Strip(t: string): string
    decreases |t|
  {
    if t == "" then ""
    else
      var c := ClauseHere(SkipBlanks(t));
      if c.Some? then Strip(c.value.1) else [t[0]] + Strip(t[1..])
  }

  /** `\s*\.\s*\*` */
  predicate DotStar(t: string) {
    var dot := SkipBlanks(t);
    dot != "" && dot[0] == '.' &&
    var star := SkipBlanks(dot[1..]);
    star != "" && star[0] == '*'
  }

  /** `grantOnDbRe`, from here. */
  function OnDbHere(t: string): Option<string> {
    var a := After("ON", t);
    if a.None? then None else
    var name := ReadName(a.value);
    if name.Some? && DotStar(name.value.1) then Some(name.value.0) else None
  }

  function FindOnDb(t: string): Option<string> {
    if OnDbHere(t).Some? then OnDbHere(t)
    else if t == "" then None
    else FindOnDb(t[1..])
  }

  function KindHere(t: string): Kind {
    if WordHere("CREATE USER ", t).Some? then CreateUser
    else if WordHere("GRANT ", t).Some? then Grant
    else Other
  }

  const REGEXES := Patterns(KindHere, FindUserHost, FindClause, FindOnDb, Strip)
}
