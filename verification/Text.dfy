/** Strings as the program handles them: the parts of Go's `strings` package
    that the modelled code calls, with the facts about them that are needed. */
module Text {

  datatype Option<+T> = None | Some(value: T)

  /** The characters `strings.TrimSpace` removes. */
  predicate IsSpace(c: char) {
    var n := c as int;
    || 9 <= n <= 13 || n == 32 || n == 0x85 || n == 0xA0 || n == 0x1680
    || 0x2000 <= n <= 0x200A || n in {0x2028, 0x2029, 0x202F, 0x205F, 0x3000}
  }

  /** These are the code points Unicode gives the property White_Space. */
  lemma SpaceCodes(c: char)
    ensures IsSpace(c) <==>
      c as int in {9, 10, 11, 12, 13, 32, 133, 160, 5760, 8192, 8193, 8194, 8195, 8196, 8197, 8198, 8199, 8200, 8201, 8202,
                   8232, 8233, 8239, 8287, 12288}
  {}

  predicate Blank(s: string) { forall i :: 0 <= i < |s| ==> IsSpace(s[i]) }

  function TrimLeft(s: string): (r: string)
    ensures |r| <= |s| && r == s[|s| - |r|..] && Blank(s[..|s| - |r|])
    ensures r == "" || !IsSpace(r[0])
  {
    if s != "" && IsSpace(s[0]) then
      var r := TrimLeft(s[1..]);
      assert s[1..][|s| - 1 - |r|..] == s[|s| - |r|..];
      assert forall i :: 1 <= i < |s| - |r| ==> s[i] == s[1..][..|s| - 1 - |r|][i - 1];
      r
    else s
  }

  function TrimRight(s: string): (r: string)
    ensures r <= s && forall i :: |r| <= i < |s| ==> IsSpace(s[i])
    ensures r == "" || !IsSpace(r[|r| - 1])
  {
    if s != "" && IsSpace(s[|s| - 1]) then TrimRight(s[..|s| - 1]) else s
  }

  function TrimSpace(s: string): string {
    TrimRight(TrimLeft(s))
  }

  /** Text that neither starts nor ends with a space. */
  predicate Trimmed(s: string) {
    s == "" || (!IsSpace(s[0]) && !IsSpace(s[|s| - 1]))
  }

  lemma {:induction false} TrimLeftBlank(lead: string, s: string)
    requires Blank(lead) && (s == "" || !IsSpace(s[0]))
    ensures TrimLeft(lead + s) == s
  {
    if lead == "" {
      assert lead + s == s;
    } else {
      assert (lead + s)[1..] == lead[1..] + s;
      TrimLeftBlank(lead[1..], s);
    }
  }

  lemma {:induction false} TrimRightBlank(s: string, trail: string)
    requires Blank(trail) && (s == "" || !IsSpace(s[|s| - 1]))
    ensures TrimRight(s + trail) == s
    decreases |trail|
  {
    if trail == "" {
      assert s + trail == s;
    } else {
      var k := |trail| - 1;
      assert (s + trail)[..|s + trail| - 1] == s + trail[..k];
      TrimRightBlank(s, trail[..k]);
    }
  }

  /** Trimming takes off exactly the blanks around a text. */
  lemma TrimAround(lead: string, s: string, trail: string)
    requires Blank(lead) && Blank(trail) && Trimmed(s) && s != ""
    ensures TrimSpace(lead + s + trail) == s
  {
    assert lead + s + trail == lead + (s + trail);
    TrimLeftBlank(lead, s + trail);
    TrimRightBlank(s, trail);
  }

  lemma TrimSame(s: string)
    requires Trimmed(s)
    ensures TrimSpace(s) == s
  {
    TrimLeftBlank("", s);
    TrimRightBlank(s, "");
    assert "" + s == s && s + "" == s;
  }

  lemma TrimIsTrimmed(s: string)
    ensures Trimmed(TrimSpace(s))
  {
    var l := TrimLeft(s);
    if TrimRight(l) != "" { assert TrimRight(l)[0] == l[0]; }
  }

  predicate OccursAt(s: string, sub: string, i: int) {
    0 <= i && i + |sub| <= |s| && s[i..i + |sub|] == sub
  }

  /** `strings.Contains` */
  ghost predicate Occurs(s: string, sub: string) {
    exists i :: OccursAt(s, sub, i)
  }

  lemma SliceOfSlice(s: string, k: nat, n: nat, i: nat, j: nat)
    requires k <= n <= |s| && i <= j <= n - k
    ensures s[k..n][i..j] == s[k + i..k + j]
  {
    assert forall x :: 0 <= x < j - i ==> s[k..n][i..j][x] == s[k + i..k + j][x];
  }

  /** A text without spaces occurs in `s` without blanks at its ends if it occurs in `s`. */
  lemma OccursWithin(s: string, k: nat, n: nat, sub: string, i: int)
    requires k <= n <= |s| && sub != "" && !IsSpace(sub[0]) && !IsSpace(sub[|sub| - 1])
    requires Blank(s[..k]) && Blank(s[n..]) && OccursAt(s, sub, i)
    ensures OccursAt(s[k..n], sub, i - k)
  {
    hide IsSpace;
    var last := i + |sub| - 1;
    assert s[i] == s[i..i + |sub|][0] && s[last] == s[i..i + |sub|][|sub| - 1];
    assert forall x :: 0 <= x < k ==> s[x] == s[..k][x];
    assert forall x :: n <= x < |s| ==> s[x] == s[n..][x - n];
    SliceOfSlice(s, k, n, i - k, i - k + |sub|);
  }

  lemma TrimIsWithin(s: string) returns (k: nat, n: nat)
    ensures k <= n <= |s| && TrimSpace(s) == s[k..n] && Blank(s[..k]) && Blank(s[n..])
  {
    hide TrimLeft, TrimRight, IsSpace;
    var l := TrimLeft(s);
    k := |s| - |l|;
    n := k + |TrimRight(l)|;
    assert TrimRight(l) == l[..n - k] == s[k..n];
    forall i | n <= i < |s|
      ensures IsSpace(s[i])
    {
      assert l[i - k] == s[i];
    }
  }

  /** Trimming does not take away occurrences of a text without spaces. */
  lemma TrimKeepsOccurrences(s: string, sub: string)
    requires sub != "" && !IsSpace(sub[0]) && !IsSpace(sub[|sub| - 1])
    ensures Occurs(TrimSpace(s), sub) <==> Occurs(s, sub)
  {
    var k, n := TrimIsWithin(s);
    hide TrimSpace, IsSpace, Blank;
    if i :| OccursAt(s[k..n], sub, i) {
      SliceOfSlice(s, k, n, i, i + |sub|);
      assert OccursAt(s, sub, i + k);
    }
    if i :| OccursAt(s, sub, i) {
      OccursWithin(s, k, n, sub, i);
    }
  }

  lemma Assoc(a: string, b: string, c: string)
    ensures a + (b + c) == a + b + c
  {}

  lemma DropFront(a: string, b: string)
    ensures (a + b)[|a|..] == b && a <= a + b
  {}

  /** `strings.Index`: the first place where `sub` occurs, if there is one. */
  function IndexFrom(s: string, sub: string, from: nat): (r: Option<nat>)
    ensures r.Some? ==> from <= r.value && OccursAt(s, sub, r.value)
    ensures r.Some? ==> forall i :: from <= i < r.value ==> !OccursAt(s, sub, i)
    ensures r.None? ==> forall i :: from <= i ==> !OccursAt(s, sub, i)
    decreases |s| - from
  {
    if from + |sub| > |s| then None
    else if s[from..from + |sub|] == sub then Some(from)
    else IndexFrom(s, sub, from + 1)
  }

  predicate Contains(s: string, sub: string)
    ensures Contains(s, sub) <==> Occurs(s, sub)
  {
    IndexFrom(s, sub, 0).Some?
  }

  predicate HasSuffix(s: string, suffix: string) {
    |suffix| <= |s| && s[|s| - |suffix|..] == suffix
  }

  /** `strings.ReplaceAll` for a pattern of one character. */
  function ReplaceAll(s: string, c: char, with: string): string {
    if s == "" then "" else (if s[0] == c then with else [s[0]]) + ReplaceAll(s[1..], c, with)
  }

  lemma {:induction false} ReplaceConcat(a: string, b: string, c: char, with: string)
    ensures ReplaceAll(a + b, c, with) == ReplaceAll(a, c, with) + ReplaceAll(b, c, with)
  {
    if a == "" {
      assert a + b == b;
    } else {
      assert (a + b)[1..] == a[1..] + b;
      ReplaceConcat(a[1..], b, c, with);
    }
  }

  lemma {:induction false} ReplaceAbsent(s: string, c: char, with: string)
    requires c !in s
    ensures ReplaceAll(s, c, with) == s
  {
    if s != "" {
      ReplaceAbsent(s[1..], c, with);
      assert [s[0]] + s[1..] == s;
    }
  }

  /** Sequences of distinct names that together are exactly a given set: a
      directory listing, or one order in which a Go map may be walked. */
  ghost predicate Enumerates<T(!new)>(order: seq<T>, names: set<T>) {
    && (forall i, j :: 0 <= i < j < |order| ==> order[i] != order[j])
    && (forall n :: n in order <==> n in names)
  }

  predicate OneLine(s: string) { '\n' !in s }

  /** What a reader of quoted text has read, after `s` before it. */
  function Prepend(s: string, r: Option<(string, string)>): Option<(string, string)> {
    if r.Some? then Some((s + r.value.0, r.value.1)) else None
  }

  lemma PrependJoins(a: string, b: string, r: Option<(string, string)>)
    ensures Prepend(a, Prepend(b, r)) == Prepend(a + b, r) && Prepend("", r) == r
  {
    if r.Some? {
      Assoc(a, b, r.value.0);
      assert "" + r.value.0 == r.value.0;
    }
  }
}
