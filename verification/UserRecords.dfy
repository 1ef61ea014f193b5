/** internal/backup/usersql.go, first half: the account dump becomes one record per user. The regular
    expressions are parameters; everything the code does with their matches is modelled. */
module UserRecords {
  import opened Text

  datatype Kind = CreateUser | Grant | Other

  /** What the patterns find in a trimmed line: its kind by prefix, user and host, the
      password hash, the database; and the line without its IDENTIFIED clause. */
  datatype Patterns = Patterns(
    kind: string -> Kind,
    userHost: string -> Option<(string, string)>,
    identified: string -> Option<string>,
    onDb: string -> Option<string>,
    strip: string -> string)

  /** `extractUserHost`, with empty names taken for no match. */
  function Account(p: Patterns, line: string): Option<(string, string)> {
    var m := p.userHost(TrimSpace(line));
    if m.None? then None else
    var user, host := TrimSpace(m.value.0), TrimSpace(m.value.1);
    if user == "" || host == "" then None else Some((user, host))
  }

  /** `extractIdentPassword` */
  function Password(p: Patterns, line: string): string {
    var m := p.identified(TrimSpace(line));
    if m.None? then "" else TrimSpace(m.value)
  }

  /** `extractGrantDb`: no database for `*.*`. */
  function Database(p: Patterns, line: string): string {
    var m := p.onDb(TrimSpace(line));
    if m.None? || TrimSpace(m.value) == "*" then "" else TrimSpace(m.value)
  }

  function KindOf(p: Patterns, line: string): Kind {
    if TrimSpace(line) == "" then Other else p.kind(TrimSpace(line))
  }

  datatype GrantLine = GrantLine(raw: string, db: string)

  /** A user's record as a value. */
  datatype Rec = Rec(hosts: seq<string>, password: string, pwByHost: map<string, string>,
                     grants: seq<GrantLine>, dbs: set<string>)

  const NEW := Rec([], "", map[], [], {})

  function AddHost(r: Rec, host: string): Rec {
    if host in r.hosts then r else r.(hosts := r.hosts + [host])
  }

  function SetPassword(r: Rec, host: string, hash: string): Rec {
    if hash == "" || (host in r.pwByHost && r.pwByHost[host] != hash) then r
    else r.(pwByHost := r.pwByHost[host := hash], password := if r.password == "" then hash else r.password)
  }

  function AddGrant(r: Rec, raw: string, db: string): Rec {
    r.(grants := r.grants + [GrantLine(raw, db)], dbs := if db == "" then r.dbs else r.dbs + {db})
  }

  /** Whether a line is about `user`. */
  predicate Concerns(p: Patterns, line: string, user: string) {
    KindOf(p, line) != Other && Account(p, line).Some? && Account(p, line).value.0 == user
  }

  function Note(p: Patterns, r: Rec, line: string): Rec
    requires Account(p, line).Some?
  {
    var host := Account(p, line).value.1;
    var s := SetPassword(AddHost(r, host), host, Password(p, line));
    if KindOf(p, line) == Grant then AddGrant(s, line, Database(p, line)) else s
  }

  /** What the lines add to a user's record. */
  function Fold(p: Patterns, r: Rec, lines: seq<string>, user: string): Rec
    decreases |lines|
  {
    if lines == [] then r
    else Fold(p, if Concerns(p, lines[0], user) then Note(p, r, lines[0]) else r, lines[1..], user)
  }

  function RecOf(p: Patterns, lines: seq<string>, user: string): Rec { Fold(p, NEW, lines, user) }

  /** The users the dump names. */
  function Users(p: Patterns, lines: seq<string>): set<string> {
    set l | l in lines && KindOf(p, l) != Other && Account(p, l).Some? :: Account(p, l).value.0
  }

  lemma {:induction false} FoldConcat(p: Patterns, r: Rec, a: seq<string>, b: seq<string>, user: string)
    ensures Fold(p, r, a + b, user) == Fold(p, Fold(p, r, a, user), b, user)
    decreases |a|
  {
    hide KindOf, Account, Note;
    if a == [] {
      assert a + b == b;
    } else {
      assert (a + b)[1..] == a[1..] + b;
      FoldConcat(p, if Concerns(p, a[0], user) then Note(p, r, a[0]) else r, a[1..], b, user);
    }
  }

  lemma FoldOne(p: Patterns, r: Rec, line: string, user: string)
    ensures Fold(p, r, [line], user) == if Concerns(p, line, user) then Note(p, r, line) else r
  {
    hide Concerns, Note;
    assert [line][1..] == [];
  }

  lemma RecOfSnoc(p: Patterns, lines: seq<string>, line: string, user: string)
    ensures var r := RecOf(p, lines, user);
      RecOf(p, lines + [line], user) == if Concerns(p, line, user) then Note(p, r, line) else r
  {
    hide Concerns, Note;
    FoldConcat(p, NEW, lines, [line], user);
    FoldOne(p, RecOf(p, lines, user), line, user);
  }

  lemma UsersSnoc(p: Patterns, lines: seq<string>, line: string)
    ensures Users(p, lines + [line]) == Users(p, lines) +
      if KindOf(p, line) != Other && Account(p, line).Some? then {Account(p, line).value.0} else {}
  {
    hide KindOf, Account;
    assert forall l :: l in lines + [line] <==> l in lines || l == line;
  }

  lemma {:induction false} UnnamedIsNew(p: Patterns, lines: seq<string>, user: string)
    requires user !in Users(p, lines)
    ensures RecOf(p, lines, user) == NEW
  {
    hide KindOf, Account, Note;
    if lines != [] {
      var init, last := lines[..|lines| - 1], lines[|lines| - 1];
      assert lines == init + [last];
      UsersSnoc(p, init, last);
      RecOfSnoc(p, init, last, user);
      UnnamedIsNew(p, init, user);
    }
  }

  // ----- The code -----------------------------------------------------------

  class UserRecord {
    const name: string
    var hosts: seq<string>
    var hostSet: set<string>
    var password: string
    var pwByHost: map<string, string>
    var grants: seq<GrantLine>
    var dbs: set<string>

    ghost predicate Valid()
      reads this
    {
      forall h :: h in hostSet <==> h in hosts
    }

    ghost function View(): Rec
      reads this
    {
      Rec(hosts, password, pwByHost, grants, dbs)
    }

    constructor (name: string)
      ensures Valid() && View() == NEW && this.name == name
    {
      this.name := name;
      hosts, hostSet, password, pwByHost, grants, dbs := [], {}, "", map[], [], {};
    }

    method AddHostEntry(host: string)
      requires Valid()
      modifies this
      ensures Valid() && View() == AddHost(old(View()), host)
    {
      if host in hostSet { return; }
      hostSet := hostSet + {host};
      hosts := hosts + [host];
    }

    /** `conflict` is reported when the host has another hash already, which then stays. */
    method SetHash(host: string, hash: string) returns (conflict: bool)
      requires Valid()
      modifies this
      ensures Valid() && View() == SetPassword(old(View()), host, hash)
      ensures conflict <==> hash != "" && host in old(pwByHost) && old(pwByHost)[host] != hash
    {
      if hash == "" { return false; }
      if host in pwByHost && pwByHost[host] != hash { return true; }
      pwByHost := pwByHost[host := hash];
      if password == "" { password := hash; }
      return false;
    }

    /** The answer does not depend on the order in which the map is walked. */
    method HasDifferentPasswords(order: seq<string>) returns (b: bool)
      requires Enumerates(order, pwByHost.Keys) && forall h :: h in pwByHost ==> pwByHost[h] != ""
      ensures b <==> exists g, h :: g in pwByHost && h in pwByHost && pwByHost[g] != pwByHost[h]
    {
      if |pwByHost| <= 1 {
        AtMostOneKey(pwByHost);
        return false;
      }
      var first := "";
      for i := 0 to |order|
        invariant first == "" <==> i == 0
        invariant forall j :: 0 <= j < i ==> pwByHost[order[j]] == first
      {
        var pw := pwByHost[order[i]];
        if first == "" {
          first := pw;
          continue;
        }
        if pw != first {
          assert order[0] in pwByHost && pwByHost[order[0]] != pwByHost[order[i]];
          return true;
        }
      }
      assert forall h :: h in pwByHost ==> h in order;
      return false;
    }
  }

  lemma AtMostOneKey(m: map<string, string>)
    requires |m| <= 1
    ensures forall g, h :: g in m && h in m ==> g == h
  {
    forall g, h | g in m && h in m
      ensures g == h
    {
      if g != h {
        assert {g, h} <= m.Keys;
        SubsetSize({g, h}, m.Keys);
      }
    }
  }

  lemma {:induction false} SubsetSize(a: set<string>, b: set<string>)
    requires a <= b
    ensures |a| <= |b|
  {
    if a != {} {
      var x :| x in a;
      SubsetSize(a - {x}, b - {x});
    }
  }

  /** `parseUserRecords`; password conflicts are only warned about. */
  method ParseUserRecords(p: Patterns, lines: seq<string>) returns (users: map<string, UserRecord>)
    ensures users.Keys == Users(p, lines)
    ensures forall u :: u in users ==>
      fresh(users[u]) && users[u].name == u && users[u].Valid() && users[u].View() == RecOf(p, lines, u)
  {
    hide KindOf, Account, Password, Database, AddHost, SetPassword, AddGrant;
    users := map[];
    for i := 0 to |lines|
      invariant users.Keys == Users(p, lines[..i])
      invariant forall u :: u in users ==>
        fresh(users[u]) && users[u].name == u && users[u].Valid() && users[u].View() == RecOf(p, lines[..i], u)
    {
      var line := lines[i];
      assert lines[..i + 1] == lines[..i] + [line];
      UsersSnoc(p, lines[..i], line);
      forall u
        ensures RecOf(p, lines[..i + 1], u) ==
          if Concerns(p, line, u) then Note(p, RecOf(p, lines[..i], u), line) else RecOf(p, lines[..i], u)
      {
        RecOfSnoc(p, lines[..i], line, u);
      }
      var kind := KindOf(p, line);
      var account := Account(p, line);
      if kind == Other || account.None? { continue; }
      var name, host := account.value.0, account.value.1;
      if name !in users {
        UnnamedIsNew(p, lines[..i], name);
        var record := new UserRecord(name);
        users := users[name := record];
      }
      NoteLine(p, users[name], line, kind, host);
    }
    assert lines[..|lines|] == lines;
  }

  method NoteLine(p: Patterns, u: UserRecord, line: string, kind: Kind, host: string)
    requires u.Valid() && kind == KindOf(p, line) && Account(p, line).Some? && host == Account(p, line).value.1
    modifies u
    ensures u.Valid() && u.View() == Note(p, old(u.View()), line)
  {
    hide KindOf, Account, Password, Database, AddHost, SetPassword;
    u.AddHostEntry(host);
    var _ := u.SetHash(host, Password(p, line));
    if kind == Grant {
      var db := Database(p, line);
      if db != "" { u.dbs := u.dbs + {db}; }
      u.grants := u.grants + [GrantLine(line, db)];
    }
  }

  // ----- What a record says about the dump ----------------------------------

  /** The first hash the dump gives for a user, on any host. */
  function FirstHash(p: Patterns, lines: seq<string>, user: string): string {
    if lines == [] then ""
    else if Concerns(p, lines[0], user) && Password(p, lines[0]) != "" then Password(p, lines[0])
    else FirstHash(p, lines[1..], user)
  }

  /** The first hash for a user on one host. */
  function FirstHashAt(p: Patterns, lines: seq<string>, user: string, host: string): string {
    if lines == [] then ""
    else if Concerns(p, lines[0], user) && Account(p, lines[0]).value.1 == host && Password(p, lines[0]) != "" then
      Password(p, lines[0])
    else FirstHashAt(p, lines[1..], user, host)
  }

  /** The grants of a user in the order of the dump. */
  function GrantsOf(p: Patterns, lines: seq<string>, user: string): seq<GrantLine> {
    if lines == [] then []
    else (if Concerns(p, lines[0], user) && KindOf(p, lines[0]) == Grant
          then [GrantLine(lines[0], Database(p, lines[0]))] else []) + GrantsOf(p, lines[1..], user)
  }

  ghost predicate Consistent(r: Rec) {
    && (forall i, j :: 0 <= i < j < |r.hosts| ==> r.hosts[i] != r.hosts[j])
    && (forall h :: h in r.pwByHost ==> r.pwByHost[h] != "")
    && (r.password == "" <==> r.pwByHost == map[])
    && (forall d :: d in r.dbs <==> d != "" && exists g :: g in r.grants && g.db == d)
  }

  lemma NoteKeeps(p: Patterns, r: Rec, line: string)
    requires Account(p, line).Some? && Consistent(r)
    ensures Consistent(Note(p, r, line))
  {
    hide Account, Password, Database, KindOf;
    var host := Account(p, line).value.1;
    var s := SetPassword(AddHost(r, host), host, Password(p, line));
    assert Consistent(s);
    if KindOf(p, line) == Grant {
      var g := GrantLine(line, Database(p, line));
      assert forall x :: x in s.grants + [g] <==> x in s.grants || x == g;
    }
  }

  lemma NoteSays(p: Patterns, r: Rec, line: string)
    requires Account(p, line).Some? && Consistent(r)
    ensures var s := Note(p, r, line);
      && s.password == (if r.password != "" then r.password else Password(p, line))
      && s.grants == r.grants + (if KindOf(p, line) == Grant then [GrantLine(line, Database(p, line))] else [])
      && forall h :: h in s.hosts <==> h in r.hosts || h == Account(p, line).value.1
  {
    hide KindOf, Account, Password, Database;
  }

  /** First hash wins, and the grants are those of the dump. */
  lemma {:induction false} FoldSays(p: Patterns, r: Rec, lines: seq<string>, user: string)
    requires Consistent(r)
    ensures var e := Fold(p, r, lines, user);
      && Consistent(e)
      && e.password == (if r.password != "" then r.password else FirstHash(p, lines, user))
      && e.grants == r.grants + GrantsOf(p, lines, user)
    decreases |lines|
  {
    hide KindOf, Account, Password, Database, Consistent, Note;
    if lines != [] {
      if Concerns(p, lines[0], user) {
        NoteKeeps(p, r, lines[0]);
        NoteSays(p, r, lines[0]);
        FoldSays(p, Note(p, r, lines[0]), lines[1..], user);
      } else {
        FoldSays(p, r, lines[1..], user);
      }
    }
  }

  lemma {:induction false} FoldSaysAt(p: Patterns, r: Rec, lines: seq<string>, user: string, host: string)
    requires forall h :: h in r.pwByHost ==> r.pwByHost[h] != ""
    ensures var e := Fold(p, r, lines, user);
      if host in r.pwByHost then host in e.pwByHost && e.pwByHost[host] == r.pwByHost[host]
      else if FirstHashAt(p, lines, user, host) == "" then host !in e.pwByHost
      else host in e.pwByHost && e.pwByHost[host] == FirstHashAt(p, lines, user, host)
    decreases |lines|
  {
    hide KindOf, Account, Password, Database;
    if lines != [] {
      var s := if Concerns(p, lines[0], user) then Note(p, r, lines[0]) else r;
      FoldSaysAt(p, s, lines[1..], user, host);
    }
  }

  /** Some line names the user with this host. */
  ghost predicate NamedAt(p: Patterns, lines: seq<string>, user: string, host: string) {
    exists i :: 0 <= i < |lines| && Concerns(p, lines[i], user) && Account(p, lines[i]).value.1 == host
  }

  lemma NamedAtFirst(p: Patterns, lines: seq<string>, user: string, host: string)
    requires lines != []
    ensures NamedAt(p, lines, user, host) <==>
      (Concerns(p, lines[0], user) && Account(p, lines[0]).value.1 == host) || NamedAt(p, lines[1..], user, host)
  {
    hide KindOf, Account;
    if NamedAt(p, lines[1..], user, host) {
      var i :| 0 <= i < |lines[1..]| && Concerns(p, lines[1..][i], user) && Account(p, lines[1..][i]).value.1 == host;
      assert lines[i + 1] == lines[1..][i];
    }
    if i :| 0 < i < |lines| && Concerns(p, lines[i], user) && Account(p, lines[i]).value.1 == host {
      assert lines[1..][i - 1] == lines[i];
    }
  }

  lemma {:induction false} FoldHosts(p: Patterns, r: Rec, lines: seq<string>, user: string, host: string)
    requires Consistent(r)
    ensures host in Fold(p, r, lines, user).hosts <==> host in r.hosts || NamedAt(p, lines, user, host)
    decreases |lines|
  {
    hide KindOf, Account, NamedAt, Note, Consistent;
    if lines == [] {
      NoneNamed(p, user, host);
    } else {
      NamedAtFirst(p, lines, user, host);
      if Concerns(p, lines[0], user) {
        NoteKeeps(p, r, lines[0]);
        NoteSays(p, r, lines[0]);
        FoldHosts(p, Note(p, r, lines[0]), lines[1..], user, host);
      } else {
        FoldHosts(p, r, lines[1..], user, host);
      }
    }
  }

  lemma NoneNamed(p: Patterns, user: string, host: string)
    ensures !NamedAt(p, [], user, host)
  {}

  /** A user's record says what the dump says: the hosts named with the user, each once; the first hash given,
      overall and per host; the grants in their order; and their databases. */
  lemma RecordSays(p: Patterns, lines: seq<string>, user: string)
    ensures var r := RecOf(p, lines, user);
      && Consistent(r)
      && r.password == FirstHash(p, lines, user)
      && r.grants == GrantsOf(p, lines, user)
      && (forall h :: h in r.hosts <==> NamedAt(p, lines, user, h))
      && (forall h :: h in r.pwByHost <==> FirstHashAt(p, lines, user, h) != "")
      && (forall h :: h in r.pwByHost ==> r.pwByHost[h] == FirstHashAt(p, lines, user, h))
  {
    hide Fold, Concerns, NamedAt, FirstHash, FirstHashAt, GrantsOf;
    FoldSays(p, NEW, lines, user);
    forall h
      ensures var r := RecOf(p, lines, user);
        && (h in r.hosts <==> NamedAt(p, lines, user, h))
        && (h in r.pwByHost <==> FirstHashAt(p, lines, user, h) != "")
        && (h in r.pwByHost ==> r.pwByHost[h] == FirstHashAt(p, lines, user, h))
    {
      FoldHosts(p, NEW, lines, user, h);
      FoldSaysAt(p, NEW, lines, user, h);
    }
    assert [] + GrantsOf(p, lines, user) == GrantsOf(p, lines, user);
  }
}
