/** Convergence of the remote copies over all histories of local changes and broken-off
    uploads, under one strictly increasing clock for both sides. */
module Convergence {
  import opened Text
  import opened Files
  import opened Transfer
  import opened Sync

  /** Clock, local and remote directory. */
  datatype World = World(now: int, local: Disk, remote: Disk)

  /** A file is written; a file is brought back with the time it had, as recovery does; a file is deleted; an
      attempt to synchronise, during which the files in `blind` cannot be examined. */
  datatype Event =
    | Put(name: string, data: seq<Byte>)
    | Restore(name: string, data: seq<Byte>, mtime: int)
    | Drop(name: string)
    | Attempt(m: Mode, names: seq<string>, blind: set<string>, net: Network)

  /** Uploads are stamped while the attempt runs, after everything written before. */
  ghost predicate During(net: Network, start: int, end: int) {
    forall n :: match net.outcome(n)
                case NotOpened => true
                case Cut(_, t) => start <= t < end
                case Done(t) => start <= t < end
  }

  ghost predicate CanHappen(w: World, e: Event, end: int) {
    && w.now < end
    && (e.Restore? ==> e.mtime < w.now)
    && (e.Attempt? ==>
         && ValidNetwork(e.net) && During(e.net, w.now, end)
         && forall n :: n in e.names <==> n in w.local - e.blind && IsBackupName(n))
  }

  ghost function Next(w: World, e: Event, end: int): World
    requires CanHappen(w, e, end)
  {
    match e
    case Put(n, data) => World(end, w.local[n := File(data, true, w.now)], w.remote)
    case Restore(n, data, mtime) => World(end, w.local[n := File(data, true, mtime)], w.remote)
    case Drop(n) => World(end, w.local - {n}, w.remote)
    case Attempt(m, names, blind, net) => World(end, w.local, Synced(m, net, w.local - blind, w.remote, names).remote)
  }

  /** The bytes on the remote side are the beginning of an upload of `data` in mode `m`. */
  ghost predicate StartOf(m: Mode, remote: seq<Byte>, data: seq<Byte>) {
    exists header: seq<Byte> :: |header| == OVERHEAD && remote <= Wire(m, header, data)
  }

  /** The bytes on the remote side are a whole upload of `data` in mode `m`. */
  ghost predicate WholeOf(m: Mode, remote: seq<Byte>, data: seq<Byte>) {
    exists header: seq<Byte> :: |header| == OVERHEAD && remote == Wire(m, header, data)
  }

  /** What a remote copy can be: older than the local file, or the beginning of an upload of it in one
      of the modes that were used, or, if sizes are looked at, of a size no encrypted upload of it has. */
  ghost predicate Traceable(modes: seq<Mode>, sized: bool, l: File, r: File) {
    || r.mtime < l.mtime
    || (exists m :: m in modes && StartOf(m, r.data, l.data))
    || (sized && |r.data| != |l.data| + OVERHEAD)
  }

  ghost predicate Reachable(w: World, modes: seq<Mode>, sized: bool) {
    && (forall n :: n in w.local ==> w.local[n].mtime < w.now)
    && (forall n :: n in w.remote && IsBackupName(n) ==> w.remote[n].mtime < w.now)
    && (forall n :: n in w.local && n in w.remote && IsBackupName(n) ==> Traceable(modes, sized, w.local[n], w.remote[n]))
  }

  /** The event uses one of the modes, and brings back no file that a remote copy can be taken for. */
  ghost predicate Tame(w: World, e: Event, modes: seq<Mode>, sized: bool) {
    && (e.Attempt? ==> e.m in modes)
    && (e.Restore? && IsBackupName(e.name) && e.name in w.remote ==>
         Traceable(modes, sized, File(e.data, true, e.mtime), w.remote[e.name]))
  }

  lemma StepKeeps(w: World, e: Event, end: int, modes: seq<Mode>, sized: bool)
    requires Reachable(w, modes, sized) && CanHappen(w, e, end) && Tame(w, e, modes, sized)
    ensures Reachable(Next(w, e, end), modes, sized)
  {
    hide IsBackupName, StartOf, Synced;
    if e.Attempt? {
      var v := Next(w, e, end);
      forall n | n in v.remote && IsBackupName(n)
        ensures v.remote[n].mtime < end
        ensures n in v.local ==> Traceable(modes, sized, v.local[n], v.remote[n])
      {
        AttemptKeeps(w, e, end, modes, sized, n);
      }
    }
  }

  lemma AttemptKeeps(w: World, e: Event, end: int, modes: seq<Mode>, sized: bool, n: string)
    requires Reachable(w, modes, sized) && CanHappen(w, e, end) && e.Attempt? && e.m in modes
    requires IsBackupName(n) && n in Synced(e.m, e.net, w.local - e.blind, w.remote, e.names).remote
    ensures var r := Synced(e.m, e.net, w.local - e.blind, w.remote, e.names).remote[n];
      r.mtime < end && (n in w.local ==> Traceable(modes, sized, w.local[n], r))
  {
    hide IsBackupName, Uploads, Wire;
    var local := w.local - e.blind;
    UploadsTouch(e.m, e.net, local, w.remote, e.names, n);
    var after := Uploads(e.m, e.net, local, w.remote, e.names).remote;
    assert Lookup(after, n) == Lookup(Synced(e.m, e.net, local, w.remote, e.names).remote, n);
    if Lookup(after, n) != Lookup(w.remote, n) {
      assert after[n].data <= Wire(e.m, e.net.header(n), local[n].data);
      assert StartOf(e.m, after[n].data, local[n].data);
    }
  }

  /** All events happen one after the other; `ends[i]` is the clock after event `i`. */
  ghost predicate Happens(w: World, events: seq<Event>, ends: seq<int>)
    decreases |events|
  {
    |events| == |ends| &&
    (events == [] || (CanHappen(w, events[0], ends[0]) && Happens(Next(w, events[0], ends[0]), events[1..], ends[1..])))
  }

  ghost function AfterAll(w: World, events: seq<Event>, ends: seq<int>): World
    requires Happens(w, events, ends)
    decreases |events|
  {
    if events == [] then w else AfterAll(Next(w, events[0], ends[0]), events[1..], ends[1..])
  }

  ghost predicate AllTame(w: World, events: seq<Event>, ends: seq<int>, modes: seq<Mode>, sized: bool)
    requires Happens(w, events, ends)
    decreases |events|
  {
    events == [] ||
    (Tame(w, events[0], modes, sized) && AllTame(Next(w, events[0], ends[0]), events[1..], ends[1..], modes, sized))
  }

  lemma {:induction false} HistoryKeeps(w: World, events: seq<Event>, ends: seq<int>, modes: seq<Mode>, sized: bool)
    requires Reachable(w, modes, sized) && Happens(w, events, ends) && AllTame(w, events, ends, modes, sized)
    ensures Reachable(AfterAll(w, events, ends), modes, sized)
    decreases |events|
  {
    hide Reachable, CanHappen, Next, Tame;
    if events != [] {
      StepKeeps(w, events[0], ends[0], modes, sized);
      HistoryKeeps(Next(w, events[0], ends[0]), events[1..], ends[1..], modes, sized);
    }
  }

  /** A first night: nothing on the remote side yet. */
  ghost predicate Fresh(w: World) {
    w.remote == map[] && forall n :: n in w.local ==> w.local[n].mtime < w.now
  }

  /** A whole encrypted upload of the file, under some password that was used. */
  ghost predicate Encrypts(modes: seq<Mode>, remote: seq<Byte>, data: seq<Byte>) {
    exists m :: m in modes && m.Aes? && WholeOf(m, remote, data)
  }

  /** With encryption, after any history of local changes, of plain uploads and uploads under other passwords, and
      of uploads broken off anywhere, one run without error leaves every local backup it can examine on the
      remote side as a whole upload of its present bytes, under the present password or an earlier one; unless a
      file was brought back that has the size, but not the bytes, of one uploaded since. */
  lemma EncryptedIsWhole(w: World, events: seq<Event>, ends: seq<int>, modes: seq<Mode>, m: Mode, names: seq<string>,
                         blind: set<string>, net: Network, end: int)
    requires m.Aes? && m in modes && Fresh(w) && Happens(w, events, ends) && AllTame(w, events, ends, modes, true)
    requires CanHappen(AfterAll(w, events, ends), Attempt(m, names, blind, net), end)
    requires var v := AfterAll(w, events, ends); !Synced(m, net, v.local - blind, v.remote, names).failed
    ensures var v := AfterAll(w, events, ends); var after := Synced(m, net, v.local - blind, v.remote, names).remote;
      forall n :: n in v.local - blind && IsBackupName(n) ==> n in after && Encrypts(modes, after[n].data, v.local[n].data)
  {
    hide IsBackupName, Encrypts, Synced, StartOf;
    HistoryKeeps(w, events, ends, modes, true);
    var v := AfterAll(w, events, ends);
    forall n | n in v.local - blind && IsBackupName(n)
      ensures var after := Synced(m, net, v.local - blind, v.remote, names).remote;
        n in after && Encrypts(modes, after[n].data, v.local[n].data)
    {
      EncryptedCopyIsWhole(v, modes, m, names, blind, net, n);
    }
  }

  /** So with one password from the first encrypted run on, it is a whole upload under that. */
  lemma EncryptedConverges(w: World, events: seq<Event>, ends: seq<int>, m: Mode, names: seq<string>,
                           blind: set<string>, net: Network, end: int)
    requires m.Aes? && Fresh(w) && Happens(w, events, ends) && AllTame(w, events, ends, [m, Plain], true)
    requires CanHappen(AfterAll(w, events, ends), Attempt(m, names, blind, net), end)
    requires var v := AfterAll(w, events, ends); !Synced(m, net, v.local - blind, v.remote, names).failed
    ensures var v := AfterAll(w, events, ends); var after := Synced(m, net, v.local - blind, v.remote, names).remote;
      forall n :: n in v.local - blind && IsBackupName(n) ==> n in after && WholeOf(m, after[n].data, v.local[n].data)
  {
    hide IsBackupName, WholeOf, Synced;
    EncryptedIsWhole(w, events, ends, [m, Plain], m, names, blind, net, end);
  }

  lemma EncryptedCopyIsWhole(v: World, modes: seq<Mode>, m: Mode, names: seq<string>, blind: set<string>, net: Network, n: string)
    requires m.Aes? && m in modes && Reachable(v, modes, true) && n in v.local - blind && IsBackupName(n)
    requires ValidNetwork(net) && forall n :: n in names <==> n in v.local - blind && IsBackupName(n)
    requires !Synced(m, net, v.local - blind, v.remote, names).failed
    ensures var after := Synced(m, net, v.local - blind, v.remote, names).remote;
      n in after && Encrypts(modes, after[n].data, v.local[n].data)
  {
    hide IsBackupName, Uploads, Xor;
    var local := v.local - blind;
    UploadsComplete(m, net, local, v.remote, names, n);
    var after := Uploads(m, net, local, v.remote, names).remote;
    assert Lookup(after, n) == Lookup(Synced(m, net, local, v.remote, names).remote, n);
    if NeedUpload(m, local[n], v.remote, n) {
      assert after[n].data == Wire(m, net.header(n), local[n].data);
      assert WholeOf(m, after[n].data, local[n].data);
    } else {
      assert Traceable(modes, true, local[n], v.remote[n]);
      var used :| used in modes && StartOf(used, after[n].data, local[n].data);
      var header: seq<Byte> :| |header| == OVERHEAD && after[n].data <= Wire(used, header, local[n].data);
      assert after[n].data == Wire(used, header, local[n].data);
      assert WholeOf(used, after[n].data, local[n].data);
    }
  }

  /** What is not needed again stays as it is on the remote side. */
  lemma CopyStays(m: Mode, net: Network, local: Disk, remote: Disk, names: seq<string>, n: string)
    requires ValidNetwork(net) && forall n :: n in names <==> n in local && IsBackupName(n)
    requires !Synced(m, net, local, remote, names).failed
    requires n in local && IsBackupName(n) && !NeedUpload(m, local[n], remote, n)
    ensures Lookup(Synced(m, net, local, remote, names).remote, n) == Lookup(remote, n)
  {
    hide IsBackupName, Uploads, NeedUpload;
    UploadsComplete(m, net, local, remote, names, n);
  }

  /** A file brought back that is as large as what was uploaded in its place, no later than that, is never sent: the copy
      goes on to be read as the other file. */
  lemma RestoredIsNotSent(net: Network, local: Disk, remote: Disk, names: seq<string>, n: string,
                          c: Cipher, password: string, header: seq<Byte>, other: seq<Byte>)
    requires ValidNetwork(net) && forall n :: n in names <==> n in local && IsBackupName(n)
    requires !Synced(Aes(c, password), net, local, remote, names).failed
    requires n in local && n in remote && IsBackupName(n) && |header| == OVERHEAD && password != ""
    requires remote[n].data == Encrypted(c, password, header, other) && remote[n].mtime >= local[n].mtime && |other| == |local[n].data|
    ensures var after := Synced(Aes(c, password), net, local, remote, names).remote;
      n in after && (Downloaded(c, password, after[n].data) == Saved(other) <==> !StartsPK(header))
  {
    hide IsBackupName, Synced, Xor;
    CopyStays(Aes(c, password), net, local, remote, names, n);
    EncryptedRoundTrip(c, password, header, other);
  }

  lemma NotTraceable(modes: seq<Mode>, l: File, r: File, m: Mode)
    requires m.Aes? && !Traceable(modes, true, l, r)
    ensures l.mtime <= r.mtime && |r.data| == |l.data| + OVERHEAD && !Encrypts(modes, r.data, l.data)
  {
    hide Wire;
    assert forall k :: WholeOf(k, r.data, l.data) ==> StartOf(k, r.data, l.data);
  }

  /** The next error-free encrypted run makes the copy of a file that was brought back a whole upload of it, exactly if
      there was no copy that can be taken for one. */
  lemma RestoredIsWholeIff(w: World, e: Event, end: int, modes: seq<Mode>, m: Mode, names: seq<string>,
                           blind: set<string>, net: Network, after: int)
    requires Reachable(w, modes, true) && CanHappen(w, e, end) && m.Aes? && m in modes
    requires e.Restore? && IsBackupName(e.name) && e.name !in blind
    requires CanHappen(Next(w, e, end), Attempt(m, names, blind, net), after)
    requires !Synced(m, net, Next(w, e, end).local - blind, w.remote, names).failed
    ensures var remote := Synced(m, net, Next(w, e, end).local - blind, w.remote, names).remote;
      e.name in remote && (Encrypts(modes, remote[e.name].data, e.data) <==> Tame(w, e, modes, true))
  {
    hide IsBackupName, Encrypts, Synced, Reachable, Traceable;
    var v := Next(w, e, end);
    if Tame(w, e, modes, true) {
      StepKeeps(w, e, end, modes, true);
      EncryptedCopyIsWhole(v, modes, m, names, blind, net, e.name);
    } else {
      NotTraceable(modes, v.local[e.name], w.remote[e.name], m);
      CopyStays(m, net, v.local - blind, w.remote, names, e.name);
    }
  }

  /** A first night on which that happens: a file is replaced by another of its size, that one is uploaded, and the first
      one is brought back. */
  function Replacing(n: string, first: seq<Byte>, second: seq<Byte>, m: Mode, net: Network): seq<Event> {
    [Put(n, second), Attempt(m, [n], {}, net), Restore(n, first, 0)]
  }

  lemma AfterThree(w: World, a: Event, b: Event, c: Event, i: int, j: int, k: int)
    requires CanHappen(w, a, i) && CanHappen(Next(w, a, i), b, j) && CanHappen(Next(Next(w, a, i), b, j), c, k)
    ensures Happens(w, [a, b, c], [i, j, k]) && AfterAll(w, [a, b, c], [i, j, k]) == Next(Next(Next(w, a, i), b, j), c, k)
  {
    hide CanHappen, Next;
    var x := Next(w, a, i);
    var y := Next(x, b, j);
    var z := Next(y, c, k);
    assert [a, b, c][1..] == [b, c] && [i, j, k][1..] == [j, k];
    assert [b, c][1..] == [c] && [j, k][1..] == [k];
    assert [c][1..] == [] && [k][1..] == [];
    assert Happens(z, [], []) && AfterAll(z, [], []) == z;
    assert Happens(y, [c], [k]) && AfterAll(y, [c], [k]) == z;
    assert Happens(x, [b, c], [j, k]) && AfterAll(x, [b, c], [j, k]) == z;
  }

  lemma SyncedOne(m: Mode, net: Network, n: string, l: File, mtime: int)
    requires ValidNetwork(net) && net.outcome(n) == Done(mtime) && IsBackupName(n)
    ensures Synced(m, net, map[n := l], map[], [n]) == Progress(map[n := File(Wire(m, net.header(n), l.data), true, mtime)], false)
  {
    hide IsBackupName, Wire;
    var local: Disk := map[n := l];
    assert [n][..0] == [];
    assert Uploads(m, net, local, map[], []) == Progress(map[], false);
    assert Uploads(m, net, local, map[], [n]) == Progress(map[n := File(Wire(m, net.header(n), l.data), true, mtime)], false);
    assert Orphans(local, map[]) == {};
  }

  lemma ReplacedHistory(n: string, first: seq<Byte>, second: seq<Byte>, m: Mode, net: Network)
    requires IsBackupName(n) && ValidNetwork(net) && forall k :: net.outcome(k) == Done(2)
    ensures var w := World(1, map[n := File(first, true, 0)], map[]); var events := Replacing(n, first, second, m, net);
      && Fresh(w) && Happens(w, events, [2, 3, 4])
      && AfterAll(w, events, [2, 3, 4]) ==
         World(4, map[n := File(first, true, 0)], map[n := File(Wire(m, net.header(n), second), true, 2)])
  {
    hide IsBackupName, Wire, Synced;
    var w := World(1, map[n := File(first, true, 0)], map[]);
    var put := World(2, map[n := File(second, true, 1)], map[]);
    var sent := World(3, map[n := File(second, true, 1)], map[n := File(Wire(m, net.header(n), second), true, 2)]);
    assert w.local[n := File(second, true, 1)] == put.local;
    assert Next(w, Put(n, second), 2) == put;
    SyncedOne(m, net, n, File(second, true, 1), 2);
    assert put.local - {} == put.local;
    assert forall k :: k in [n] <==> k in put.local && IsBackupName(k);
    assert Next(put, Attempt(m, [n], {}, net), 3) == sent;
    assert sent.local[n := File(first, true, 0)] == w.local;
    AfterThree(w, Put(n, second), Attempt(m, [n], {}, net), Restore(n, first, 0), 2, 3, 4);
  }

  /** After it, an error-free run leaves the second file on the remote side, and gives it back for the first. */
  lemma RestoredHistory(n: string, first: seq<Byte>, second: seq<Byte>, c: Cipher, password: string, net: Network, later: Network)
    requires IsBackupName(n) && |first| == |second| && password != "" && !StartsPK(net.header(n))
    requires ValidNetwork(net) && ValidNetwork(later) && forall k :: net.outcome(k) == Done(2)
    ensures var w := World(1, map[n := File(first, true, 0)], map[]); var m := Aes(c, password);
      var events := Replacing(n, first, second, m, net);
      && Fresh(w) && Happens(w, events, [2, 3, 4])
      && var v := AfterAll(w, events, [2, 3, 4]);
      && v.local == w.local
      && var p := Synced(m, later, v.local, v.remote, [n]);
      !p.failed && n in p.remote && Downloaded(c, password, p.remote[n].data) == Saved(second)
  {
    hide IsBackupName, Synced, Xor, Happens, AfterAll, Replacing;
    var m := Aes(c, password);
    ReplacedHistory(n, first, second, m, net);
    var local: Disk := map[n := File(first, true, 0)];
    var remote: Disk := map[n := File(Encrypted(c, password, net.header(n), second), true, 2)];
    NothingSent(m, later, local, remote, n);
    RestoredIsNotSent(later, local, remote, [n], n, c, password, net.header(n), second);
  }

  lemma NothingSent(m: Mode, net: Network, local: Disk, remote: Disk, n: string)
    requires ValidNetwork(net) && n in local && !NeedUpload(m, local[n], remote, n)
    ensures !Synced(m, net, local, remote, [n]).failed
  {
    hide IsBackupName, NeedUpload;
    assert [n][..0] == [];
    assert Uploads(m, net, local, remote, []) == Progress(remote, false);
  }

  /** After a change of the password, a copy of the right size that is not older than the file stays as it is in
      every later run, and can be read with the new password exactly if that gives the same keystream. */
  lemma OldPasswordStays(net: Network, local: Disk, remote: Disk, names: seq<string>, n: string,
                         c: Cipher, before: string, now: string, header: seq<Byte>)
    requires ValidNetwork(net) && forall n :: n in names <==> n in local && IsBackupName(n)
    requires !Synced(Aes(c, now), net, local, remote, names).failed
    requires n in local && n in remote && IsBackupName(n) && |header| == OVERHEAD
    requires remote[n].data == Encrypted(c, before, header, local[n].data) && remote[n].mtime >= local[n].mtime
    ensures Lookup(Synced(Aes(c, now), net, local, remote, names).remote, n) == Some(remote[n])
    ensures now != "" && !StartsPK(header) ==>
      (Downloaded(c, now, remote[n].data) == Saved(local[n].data) <==>
       forall i :: 0 <= i < |local[n].data| ==> Stream(c, now, header, i) == Stream(c, before, header, i))
  {
    hide IsBackupName, Synced, Stream, Xor;
    CopyStays(Aes(c, now), net, local, remote, names, n);
    if now != "" && !StartsPK(header) { ReadWithOther(c, before, now, header, local[n].data); }
  }

  lemma ReadWithOther(c: Cipher, before: string, now: string, header: seq<Byte>, data: seq<Byte>)
    requires |header| == OVERHEAD && now != "" && !StartsPK(header)
    ensures Downloaded(c, now, Encrypted(c, before, header, data)) == Saved(data) <==>
      forall i :: 0 <= i < |data| ==> Stream(c, now, header, i) == Stream(c, before, header, i)
  {
    hide Stream, Xor;
    var body := Xor(c, before, header, data, 0);
    var remote := header + body;
    assert remote[..OVERHEAD] == header && remote[OVERHEAD..] == body;
    var back := Xor(c, now, header, body, 0);
    assert Downloaded(c, now, remote) == Saved(back);
    forall i | 0 <= i < |data|
      ensures back[i] == data[i] <==> Stream(c, now, header, i) == Stream(c, before, header, i)
    {
      OtherByte(c, before, now, header, data, i);
    }
  }

  lemma OtherByte(c: Cipher, before: string, now: string, header: seq<Byte>, data: seq<Byte>, i: nat)
    requires |header| == OVERHEAD && i < |data|
    ensures Xor(c, now, header, Xor(c, before, header, data, 0), 0)[i] == data[i] <==>
      Stream(c, now, header, i) == Stream(c, before, header, i)
  {
    hide Stream, Mix;
    MixTwice(data[i], Stream(c, before, header, i), Stream(c, now, header, i));
  }

  /** Without encryption the remote copy of a file is whole after an error-free run exactly if no
      shorter copy, stamped later than the file, was there before: the size test that encryption
      brings with it is what is missing. */
  lemma PlainConvergesIff(w: World, events: seq<Event>, ends: seq<int>, names: seq<string>, blind: set<string>, net: Network, end: int, n: string)
    requires Fresh(w) && Happens(w, events, ends) && AllTame(w, events, ends, [Plain], false)
    requires CanHappen(AfterAll(w, events, ends), Attempt(Plain, names, blind, net), end)
    requires var v := AfterAll(w, events, ends);
      !Synced(Plain, net, v.local - blind, v.remote, names).failed && n in v.local - blind && IsBackupName(n)
    ensures var v := AfterAll(w, events, ends); var after := Synced(Plain, net, v.local - blind, v.remote, names).remote;
      && n in after
      && (after[n].data == v.local[n].data <==>
          !(n in v.remote && v.remote[n].mtime >= v.local[n].mtime && |v.remote[n].data| < |v.local[n].data|))
  {
    hide IsBackupName, Uploads;
    HistoryKeeps(w, events, ends, [Plain], false);
    var v := AfterAll(w, events, ends);
    var local := v.local - blind;
    UploadsComplete(Plain, net, local, v.remote, names, n);
    var after := Uploads(Plain, net, local, v.remote, names).remote;
    assert Lookup(after, n) == Lookup(Synced(Plain, net, local, v.remote, names).remote, n);
    if !NeedUpload(Plain, local[n], v.remote, n) {
      assert Traceable([Plain], false, local[n], v.remote[n]);
    }
  }

  /** And that does happen: one broken-off plain upload is never repaired. */
  lemma PlainKeepsTruncated(n: string, data: seq<Byte>, header: seq<Byte>)
    requires IsBackupName(n) && |data| > 0 && |header| == OVERHEAD
    ensures
      var l := File(data, true, 0);
      var cut := Network((_: string) => Cut(0, 1), (_: string) => header, {});
      var fine := Network((_: string) => Done(3), (_: string) => header, {});
      var w := World(1, map[n := l], map[]);
      var v := World(2, map[n := l], Synced(Plain, cut, map[n := l], map[], [n]).remote);
      && Fresh(w) && CanHappen(w, Attempt(Plain, [n], {}, cut), 2) && Next(w, Attempt(Plain, [n], {}, cut), 2) == v
      && !Synced(Plain, fine, v.local, v.remote, [n]).failed
      && Synced(Plain, fine, v.local, v.remote, [n]).remote == map[n := File([], false, 1)]
  {
    hide IsBackupName;
    var l := File(data, true, 0);
    var cut := Network((_: string) => Cut(0, 1), (_: string) => header, {});
    var fine := Network((_: string) => Done(3), (_: string) => header, {});
    var local: Disk := map[n := l];
    assert [n][..0] == [];
    assert Uploads(Plain, cut, local, map[], []) == Progress(map[], false);
    assert Uploads(Plain, cut, local, map[], [n]) == Progress(map[n := File([], false, 1)], true);
    var remote: Disk := map[n := File([], false, 1)];
    assert Uploads(Plain, fine, local, remote, []) == Progress(remote, false);
    assert Uploads(Plain, fine, local, remote, [n]) == Progress(remote, false);
    assert Orphans(local, remote) == {};
    assert forall k :: k in [n] <==> k in local && IsBackupName(k);
    assert local - {} == local;
  }
}
