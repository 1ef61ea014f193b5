/** The backup directory: file names with their contents, and the three file
    operations the program issues on it. */
module Files {
  import opened Text
  import opened Calendar

  type Byte = bv8

  /** `complete` records whether the bytes are a whole, closed backup; the program
      itself only ever sees name, size and modification time. */
  datatype File = File(data: seq<Byte>, complete: bool, mtime: int)

  type Disk = map<string, File>

  function Lookup(d: Disk, n: string): Option<File> { if n in d then Some(d[n]) else None }

  datatype Op =
    | Rename(from: string, to: string)
    | Remove(name: string)
    | Write(name: string, file: File)

  /** What one operation does to the directory. `os.Rename` replaces its target. */
  function Do(d: Disk, op: Op): Disk {
    match op
    case Rename(from, to) => if from in d then (d - {from})[to := d[from]] else d
    case Remove(name) => d - {name}
    case Write(name, file) => d[name := file]
  }

  function Exec(d: Disk, ops: seq<Op>): Disk
    decreases |ops|
  {
    if ops == [] then d else Exec(Do(d, ops[0]), ops[1..])
  }

  lemma {:induction false} ExecConcat(d: Disk, a: seq<Op>, b: seq<Op>)
    ensures Exec(d, a + b) == Exec(Exec(d, a), b)
    decreases |a|
  {
    if a == [] {
      assert a + b == b;
    } else {
      assert (a + b)[1..] == a[1..] + b;
      ExecConcat(Do(d, a[0]), a[1..], b);
    }
  }

  lemma ExecOne(d: Disk, op: Op)
    ensures Exec(d, [op]) == Do(d, op)
  {
    assert Exec(Do(d, op), [op][1..]) == Do(d, op);
  }

  lemma ExecSnoc(d: Disk, ops: seq<Op>, op: Op)
    ensures Exec(d, ops + [op]) == Do(Exec(d, ops), op)
  {
    ExecConcat(d, ops, [op]);
    ExecOne(Exec(d, ops), op);
  }

  lemma ExecTwo(d: Disk, p: Op, q: Op)
    ensures Exec(d, [p, q]) == Do(Do(d, p), q)
  {
    assert [p, q][1..] == [q];
    ExecOne(Do(d, p), q);
  }

  lemma ExecThree(d: Disk, p: Op, q: Op, r: Op)
    ensures Exec(d, [p, q, r]) == Do(Do(Do(d, p), q), r)
  {
    assert [p, q, r][1..] == [q, r];
    ExecTwo(Do(d, p), q, r);
  }

  /** A directory together with the operations issued on it so far. */
  class Folder {
    var files: Disk
    ghost var issued: seq<Op>

    constructor (d: Disk)
      ensures files == d && issued == []
    {
      files, issued := d, [];
    }

    method Issue(op: Op)
      modifies this
      ensures files == Do(old(files), op) && issued == old(issued) + [op]
    {
      files, issued := Do(files, op), issued + [op];
    }
  }

  /** What `os.ReadDir` gives: the names in some order, or an error. */
  datatype Listing = Unreadable | Missing | Entries(names: seq<string>)

  function Names(l: Listing): seq<string> { if l.Entries? then l.names else [] }

  ghost predicate ListingOf(l: Listing, d: Disk) {
    && (l.Entries? ==> Enumerates(l.names, d.Keys))
    && (l.Missing? ==> d == map[])
  }

  // ----- Backup file names --------------------------------------------------

  const PREFIX := "mysql_backup_"

  /** `^mysql_backup_\d{8}_` */
  predicate HasDatedPrefix(name: string) {
    |name| >= 22 && name[..13] == PREFIX && AllDigits(name[13..21]) && name[21] == '_'
  }

  /** The date of a backup file, for the names `ListBackups` accepts. */
  function NameDate(name: string): Option<int> {
    if |name| >= 23 && HasDatedPrefix(name) && HasSuffix(name, ".zip") then ParseDate(name[13..21]) else None
  }

  /** The names `Sync` takes for backups, on both sides: `^mysql_backup_\d{8}_.*\.zip$`. */
  predicate IsBackupName(name: string) {
    HasDatedPrefix(name) && |name| >= 26 && HasSuffix(name, ".zip") && '\n' !in name
  }

  function BackupName(today: int, host: string, db: string): string {
    BaseName(today, host, db) + ".zip"
  }

  function BaseName(today: int, host: string, db: string): string {
    PREFIX + DateKey(today) + "_" + host + "_" + db
  }

  lemma NameShape(key: string, rest: string)
    requires |key| == 8 && AllDigits(key)
    ensures var name := PREFIX + key + "_" + rest + ".zip";
      && HasDatedPrefix(name) && name[13..21] == key && HasSuffix(name, ".zip") && |name| >= 26
      && ('\n' in name <==> '\n' in rest)
  {
    var front := PREFIX + key + "_";
    var name := front + rest + ".zip";
    assert front == name[..22] && front[13..21] == key;
    assert name == PREFIX + (key + "_" + rest + ".zip");
    assert '\n' !in front by { assert !IsDigit('\n'); }
    assert forall c :: c in name <==> c in front || c in rest || c in ".zip";
  }

  /** Prefix, eight digits, an underscore, anything, and the suffix. */
  predicate DatedName(n: string, digits: string, rest: string) {
    |digits| == 8 && AllDigits(digits) && n == "mysql_backup_" + digits + "_" + rest + ".zip"
  }

  lemma PartsOf(n: string)
    requires HasDatedPrefix(n) && HasSuffix(n, ".zip")
    ensures |n| >= 26 && DatedName(n, n[13..21], n[22..|n| - 4])
  {
    assert n[|n| - 4..] == ".zip" && n[|n| - 4] == '.';
    assert n[21] == '_' && forall i :: 13 <= i < 21 ==> IsDigit(n[i]) by { assert forall i :: 13 <= i < 21 ==> n[i] == n[13..21][i - 13]; }
    assert forall i :: 0 <= i < 13 ==> n[i] == PREFIX[i] by { assert forall i :: 0 <= i < 13 ==> n[i] == n[..13][i]; }
    assert '.' !in PREFIX;
    var k := |n| - 4;
    assert k >= 22;
    assert n == n[..13] + n[13..21] + [n[21]] + n[22..k] + n[k..];
  }

  /** Which names the listing takes for backups, and of which day. */
  lemma NameDateIff(n: string, t: int)
    ensures NameDate(n) == Some(t) <==> 0 <= Year(t) <= 9999 && exists rest :: DatedName(n, DateKey(t), rest)
  {
    hide Year, DateKey, ParseDate, DatedName, HasDatedPrefix, HasSuffix;
    if NameDate(n) == Some(t) {
      PartsOf(n);
      DigitsOf(n);
      ParseIsKey(n[13..21]);
      ParseYear(n[13..21]);
      assert DatedName(n, DateKey(t), n[22..|n| - 4]);
    }
    if rest :| 0 <= Year(t) <= 9999 && DatedName(n, DateKey(t), rest) {
      DatedShape(n, DateKey(t), rest);
      KeyRoundTrip(t);
    }
  }

  lemma DigitsOf(n: string)
    requires HasDatedPrefix(n)
    ensures |n| >= 22 && AllDigits(n[13..21])
  {}

  lemma DatedShape(n: string, digits: string, rest: string)
    requires DatedName(n, digits, rest)
    ensures HasDatedPrefix(n) && n[13..21] == digits && HasSuffix(n, ".zip") && |n| >= 26
  {
    NameShape(digits, rest);
  }

  /** Which names the mirror takes for backups. */
  lemma IsBackupNameIff(n: string)
    ensures IsBackupName(n) <==> '\n' !in n && exists digits, rest :: DatedName(n, digits, rest)
  {
    hide DatedName, HasDatedPrefix, HasSuffix;
    if IsBackupName(n) { PartsOf(n); }
    if digits, rest :| DatedName(n, digits, rest) { DatedShape(n, digits, rest); }
  }

  lemma BackupNameParts(today: int, host: string, db: string)
    ensures BackupName(today, host, db) == PREFIX + DateKey(today) + "_" + (host + "_" + db) + ".zip"
    ensures '\n' in host + "_" + db <==> '\n' in host || '\n' in db
  {
    hide DateKey;
    assert forall c :: c in host + "_" + db <==> c in host || c in "_" || c in db;
  }

  /** The zips of a night carry that night's date, and `Sync` sees those
      without a line break in host or database name. */
  lemma BackupNameIsDated(today: int, host: string, db: string)
    requires 0 <= Year(today) <= 9999
    ensures NameDate(BackupName(today, host, db)) == Some(today)
    ensures IsBackupName(BackupName(today, host, db)) <==> '\n' !in host && '\n' !in db
  {
    KeyRoundTrip(today);
    BackupNameParts(today, host, db);
    NameShape(DateKey(today), host + "_" + db);
    hide DateKey, ParseDate, Year, HasDatedPrefix, HasSuffix, BackupName;
  }

  /** The name of a zip: date, host and database in this order. */
  lemma BackupNameSays(today: int, host: string, db: string)
    ensures var n := BackupName(today, host, db); var k := 13 + |DateKey(today)|;
      && n[..13] == "mysql_backup_" && n[13..k] == DateKey(today) && n[k] == '_'
      && n[k + 1..k + 1 + |host|] == host && n[k + 1 + |host|] == '_'
      && n[k + 2 + |host|..] == db + ".zip"
  {
    hide DateKey;
  }

  lemma BackupNameInjective(today: int, host: string, a: string, b: string)
    requires BackupName(today, host, a) == BackupName(today, host, b)
    ensures a == b
  {
    hide DateKey;
    var p := PREFIX + DateKey(today) + "_" + host + "_";
    assert BackupName(today, host, a) == p + a + ".zip" && BackupName(today, host, b) == p + b + ".zip";
    assert a == (p + a + ".zip")[|p|..|p + a|];
    assert b == (p + b + ".zip")[|p|..|p + b|];
  }
}
