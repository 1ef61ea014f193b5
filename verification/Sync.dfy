/** internal/remote/remote.go, `Sync`: the backup zips of the remote directory are made
    a mirror of the local ones. Local and remote directories are `Disk`s; what the network
    does to each upload and removal is a parameter. */
module Sync {
  import opened Text
  import opened Files
  import opened Transfer

  datatype Mode = Plain | Aes(c: Cipher, password: string)

  /** The bytes an upload of `data` sends. */
  function Wire(m: Mode, header: seq<Byte>, data: seq<Byte>): seq<Byte>
    requires |header| == OVERHEAD
  {
    if m.Plain? then data else Encrypted(m.c, m.password, header, data)
  }

  /** An upload never starts, breaks off after some bytes, or is completed. */
  datatype Outcome = NotOpened | Cut(bytes: nat, mtime: int) | Done(mtime: int)

  /** What happens on the network during one `Sync`: the outcome of each upload, the salt
      and nonce drawn for it, and the names whose removal fails. */
  datatype Network = Network(outcome: string -> Outcome, header: string -> seq<Byte>, stuck: set<string>)

  ghost predicate ValidNetwork(net: Network) { forall n :: |net.header(n)| == OVERHEAD }

  predicate NeedUpload(m: Mode, l: File, remote: Disk, n: string) {
    || n !in remote
    || l.mtime > remote[n].mtime
    || (m.Aes? && |remote[n].data| != |l.data| + OVERHEAD)
  }

  function Complete(m: Mode, net: Network, l: File, n: string): File
    requires |net.header(n)| == OVERHEAD && net.outcome(n).Done?
  {
    File(Wire(m, net.header(n), l.data), true, net.outcome(n).mtime)
  }

  function Broken(m: Mode, net: Network, l: File, n: string): File
    requires |net.header(n)| == OVERHEAD && net.outcome(n).Cut?
  {
    var wire := Wire(m, net.header(n), l.data);
    var k := net.outcome(n).bytes;
    File(if k <= |wire| then wire[..k] else wire, false, net.outcome(n).mtime)
  }

  /** The names of a listing that are backups, without those that cannot be examined. */
  function Backups(names: seq<string>, blind: set<string>): seq<string> {
    if names == [] then [] else
    var n := names[|names| - 1];
    Backups(names[..|names| - 1], blind) + if IsBackupName(n) && n !in blind then [n] else []
  }

  lemma {:induction false} BackupsOf(names: seq<string>, blind: set<string>)
    requires forall i, j :: 0 <= i < j < |names| ==> names[i] != names[j]
    ensures forall n :: n in Backups(names, blind) <==> n in names && IsBackupName(n) && n !in blind
    ensures forall i, j :: 0 <= i < j < |Backups(names, blind)| ==> Backups(names, blind)[i] != Backups(names, blind)[j]
  {
    hide IsBackupName;
    if names != [] {
      var init, last := names[..|names| - 1], names[|names| - 1];
      BackupsOf(init, blind);
      assert last !in init && last !in Backups(init, blind);
      assert forall n :: n in names <==> n in init || n == last;
    }
  }

  // ----- The upload loop ----------------------------------------------------

  datatype Progress = Progress(remote: Disk, failed: bool)

  /** The uploads of `names` in order, ending at the first that fails. What is needed is
      decided on the listing `seen` taken before the first upload. */
  function Uploads(m: Mode, net: Network, local: Disk, seen: Disk, names: seq<string>): Progress
    requires ValidNetwork(net) && forall n :: n in names ==> n in local
  {
    if names == [] then Progress(seen, false) else
    var p := Uploads(m, net, local, seen, names[..|names| - 1]);
    var n := names[|names| - 1];
    if p.failed || !NeedUpload(m, local[n], seen, n) then p
    else match net.outcome(n)
      case NotOpened => Progress(p.remote, true)
      case Cut(_, _) => Progress(p.remote[n := Broken(m, net, local[n], n)], true)
      case Done(_) => Progress(p.remote[n := Complete(m, net, local[n], n)], false)
  }

  /** Name by name: what the upload loop may have made of a file. */
  ghost predicate Touched(m: Mode, net: Network, local: Disk, seen: Disk, after: Disk, n: string)
    requires ValidNetwork(net)
  {
    || Lookup(after, n) == Lookup(seen, n)
    || (n in local && NeedUpload(m, local[n], seen, n) && n in after &&
        match net.outcome(n)
        case NotOpened => false
        case Cut(_, _) => after[n] == Broken(m, net, local[n], n)
        case Done(_) => after[n] == Complete(m, net, local[n], n))
  }

  lemma {:induction false} UploadsTouch(m: Mode, net: Network, local: Disk, seen: Disk, names: seq<string>, n: string)
    requires ValidNetwork(net) && forall n :: n in names ==> n in local
    ensures Touched(m, net, local, seen, Uploads(m, net, local, seen, names).remote, n)
    ensures n !in names ==> Lookup(Uploads(m, net, local, seen, names).remote, n) == Lookup(seen, n)
    ensures n in seen ==> n in Uploads(m, net, local, seen, names).remote
  {
    hide NeedUpload, Complete, Broken;
    if names != [] {
      UploadsTouch(m, net, local, seen, names[..|names| - 1], n);
    }
  }

  /** An upload loop without failure sent exactly what was needed. */
  lemma {:induction false} UploadsComplete(m: Mode, net: Network, local: Disk, seen: Disk, names: seq<string>, n: string)
    requires ValidNetwork(net) && forall n :: n in names ==> n in local
    requires !Uploads(m, net, local, seen, names).failed && n in names
    ensures var after := Uploads(m, net, local, seen, names).remote;
      if NeedUpload(m, local[n], seen, n) then
        net.outcome(n).Done? && Lookup(after, n) == Some(Complete(m, net, local[n], n))
      else Lookup(after, n) == Lookup(seen, n)
  {
    hide NeedUpload, Complete, Broken;
    var init := names[..|names| - 1];
    if n in init {
      UploadsComplete(m, net, local, seen, init, n);
    } else {
      UploadsTouch(m, net, local, seen, init, n);
    }
  }

  /** The upload of a backup is needed and does not get done. */
  ghost predicate Stalls(m: Mode, net: Network, local: Disk, seen: Disk, n: string) {
    n in local && NeedUpload(m, local[n], seen, n) && !net.outcome(n).Done?
  }

  /** The upload loop fails exactly if some needed upload does. */
  lemma {:induction false} UploadsFailIff(m: Mode, net: Network, local: Disk, seen: Disk, names: seq<string>)
    requires ValidNetwork(net) && forall n :: n in names ==> n in local
    ensures Uploads(m, net, local, seen, names).failed <==> exists n :: n in names && Stalls(m, net, local, seen, n)
  {
    hide NeedUpload, Complete, Broken;
    if names != [] {
      var init, last := names[..|names| - 1], names[|names| - 1];
      UploadsFailIff(m, net, local, seen, init);
      assert forall n :: n in names <==> n in init || n == last;
      assert last in names && (Stalls(m, net, local, seen, last) <==> NeedUpload(m, local[last], seen, last) && !net.outcome(last).Done?);
      if n :| n in init && Stalls(m, net, local, seen, n) { assert n in names; }
    }
  }

  // ----- The whole of Sync --------------------------------------------------

  /** The remote names that have no local counterpart any more. */
  function Orphans(local: Disk, remote: Disk): set<string> {
    set n | n in remote && IsBackupName(n) && n !in local
  }

  function Synced(m: Mode, net: Network, local: Disk, remote: Disk, names: seq<string>): Progress
    requires ValidNetwork(net) && forall n :: n in names ==> n in local
  {
    var p := Uploads(m, net, local, remote, names);
    if p.failed then p else Progress(p.remote - (Orphans(local, remote) - net.stuck), false)
  }

  /** There is nothing to upload and nothing to remove, apart from what cannot be removed. */
  ghost predicate UpToDate(m: Mode, local: Disk, remote: Disk, stuck: set<string>) {
    && (forall n :: n in local && IsBackupName(n) ==> !NeedUpload(m, local[n], remote, n))
    && Orphans(local, remote) <= stuck
  }

  datatype Result = Skipped | LocalError | ConnectError | RemoteError | UploadError | Mirrored

  /** `Sync`. The local files in `blind` are listed but cannot be examined, and are taken for absent; a
      failing `MkdirAll` is only a warning. */
  method Synchronise(configured: bool, m: Mode, local: Disk, localListing: Listing, blind: set<string>, connected: bool,
                     remote: Folder, remoteListing: Listing, net: Network)
    returns (r: Result)
    requires ListingOf(localListing, local) && ListingOf(remoteListing, remote.files) && ValidNetwork(net)
    modifies remote
    ensures r.Skipped? <==> !configured
    ensures r.LocalError? <==> configured && localListing.Unreadable?
    ensures r.ConnectError? <==> configured && !localListing.Unreadable? && !connected
    ensures r.RemoteError? <==> configured && !localListing.Unreadable? && connected && remoteListing.Unreadable?
    ensures !r.UploadError? && !r.Mirrored? ==> remote.files == old(remote.files) && remote.issued == old(remote.issued)
    ensures r.UploadError? || r.Mirrored? ==>
      var names := Backups(Names(localListing), blind);
      && (forall n :: n in names <==> n in local - blind && IsBackupName(n))
      && remote.files == Synced(m, net, local - blind, old(remote.files), names).remote
      && r.UploadError? == Synced(m, net, local - blind, old(remote.files), names).failed
    ensures r.Mirrored? && UpToDate(m, local - blind, old(remote.files), net.stuck) ==> remote.issued == old(remote.issued)
  {
    hide IsBackupName, NeedUpload, Uploads, Backups;
    if !configured { return Skipped; }
    if localListing.Unreadable? { return LocalError; }
    if !connected { return ConnectError; }
    if remoteListing.Unreadable? { return RemoteError; }
    var localList := ListZips(local, localListing, blind);
    var remoteList := ListZips(remote.files, remoteListing, {});
    ghost var seen := remote.files;
    var remoteMap := map n | n in remoteList :: remote.files[n];
    assert forall n :: n in localList ==> Lookup(remoteMap, n) == Lookup(seen, n);
    var ok := UploadNeeded(m, local - blind, localList, remoteMap, remote, net);
    if !ok { return UploadError; }
    assert Doomed(localList, remoteList, net.stuck) == Orphans(local - blind, seen) - net.stuck;
    hide Doomed, Orphans;
    RemoveOrphans(localList, remoteList, remote, net.stuck);
    return Mirrored;
  }

  method ListZips(d: Disk, listing: Listing, blind: set<string>) returns (list: seq<string>)
    requires ListingOf(listing, d) && !listing.Unreadable?
    ensures list == Backups(Names(listing), blind)
    ensures forall n :: n in list <==> n in d && IsBackupName(n) && n !in blind
  {
    hide IsBackupName;
    list := [];
    if listing.Missing? { return; }
    var names := listing.names;
    for i := 0 to |names|
      invariant list == Backups(names[..i], blind)
    {
      assert names[..i + 1][..i] == names[..i];
      if !IsBackupName(names[i]) || names[i] in blind { continue; }
      list := list + [names[i]];
    }
    assert names[..|names|] == names;
    BackupsOf(names, blind);
  }

  method UploadNeeded(m: Mode, local: Disk, localList: seq<string>, remoteMap: Disk, remote: Folder, net: Network)
    returns (ok: bool)
    requires ValidNetwork(net) && forall n :: n in localList ==> n in local
    requires forall n :: n in localList ==> Lookup(remoteMap, n) == Lookup(remote.files, n)
    modifies remote
    ensures var p := Uploads(m, net, local, old(remote.files), localList);
      remote.files == p.remote && ok == !p.failed
    ensures (forall n :: n in localList ==> !NeedUpload(m, local[n], old(remote.files), n)) ==>
      remote.issued == old(remote.issued)
  {
    hide Complete, Broken;
    ghost var seen := remote.files;
    for i := 0 to |localList|
      invariant Uploads(m, net, local, seen, localList[..i]) == Progress(remote.files, false)
      invariant (forall n :: n in localList ==> !NeedUpload(m, local[n], seen, n)) ==> remote.issued == old(remote.issued)
    {
      var n := localList[i];
      assert localList[..i + 1][..i] == localList[..i] && localList[..i + 1][i] == n;
      assert Lookup(remoteMap, n) == Lookup(seen, n);
      var needUpload := n !in remoteMap || local[n].mtime > remoteMap[n].mtime;
      if m.Aes? && n in remoteMap {
        var expectedSize := |local[n].data| + OVERHEAD;
        if |remoteMap[n].data| != expectedSize { needUpload := true; }
      }
      assert needUpload == NeedUpload(m, local[n], seen, n);
      if needUpload {
        match net.outcome(n)
        case NotOpened =>
          UploadsStayFailed(m, net, local, seen, localList, i + 1);
          return false;
        case Cut(_, _) =>
          remote.Issue(Write(n, Broken(m, net, local[n], n)));
          UploadsStayFailed(m, net, local, seen, localList, i + 1);
          return false;
        case Done(_) =>
          remote.Issue(Write(n, Complete(m, net, local[n], n)));
      }
    }
    assert localList[..|localList|] == localList;
    ok := true;
  }

  lemma {:induction false} UploadsStayFailed(m: Mode, net: Network, local: Disk, seen: Disk, names: seq<string>, k: nat)
    requires ValidNetwork(net) && forall n :: n in names ==> n in local
    requires k <= |names| && Uploads(m, net, local, seen, names[..k]).failed
    ensures Uploads(m, net, local, seen, names) == Uploads(m, net, local, seen, names[..k])
    decreases |names|
  {
    hide NeedUpload, Complete, Broken;
    if k == |names| {
      assert names[..k] == names;
    } else {
      var init := names[..|names| - 1];
      assert init[..k] == names[..k];
      UploadsStayFailed(m, net, local, seen, init, k);
    }
  }

  function Doomed(localList: seq<string>, remoteList: seq<string>, stuck: set<string>): set<string> {
    set n | n in remoteList && n !in localList && n !in stuck
  }

  method RemoveOrphans(localList: seq<string>, remoteList: seq<string>, remote: Folder, stuck: set<string>)
    modifies remote
    ensures remote.files == old(remote.files) - Doomed(localList, remoteList, stuck)
    ensures Doomed(localList, remoteList, stuck) == {} ==> remote.issued == old(remote.issued)
  {
    for i := 0 to |remoteList|
      invariant remote.files == old(remote.files) - Doomed(localList, remoteList[..i], stuck)
      invariant Doomed(localList, remoteList, stuck) == {} ==> remote.issued == old(remote.issued)
    {
      var rem := remoteList[i];
      assert forall n :: n in remoteList[..i + 1] <==> n in remoteList[..i] || n == rem;
      var inLocal := LocalListByName(localList, rem);
      if inLocal || rem in stuck {
        assert Doomed(localList, remoteList[..i + 1], stuck) == Doomed(localList, remoteList[..i], stuck);
        continue;
      }
      assert rem in Doomed(localList, remoteList, stuck);
      remote.Issue(Remove(rem));
      assert Doomed(localList, remoteList[..i + 1], stuck) == Doomed(localList, remoteList[..i], stuck) + {rem};
    }
    assert remoteList[..|remoteList|] == remoteList;
  }

  method LocalListByName(list: seq<string>, name: string) returns (found: bool)
    ensures found <==> name in list
  {
    for i := 0 to |list|
      invariant name !in list[..i]
    {
      if list[i] == name { return true; }
    }
    return false;
  }

  // ----- Mirror and stability -----------------------------------------------

  /** What an error-free run promises about names: with all removals done the backups on both sides have the
      same names; whatever else lies in the remote directory is not touched; and no
      name that is still local is removed. */
  lemma SyncMirrorsNames(m: Mode, net: Network, local: Disk, remote: Disk, names: seq<string>)
    requires ValidNetwork(net) && forall n :: n in names <==> n in local && IsBackupName(n)
    requires !Synced(m, net, local, remote, names).failed
    ensures var after := Synced(m, net, local, remote, names).remote;
      && (forall n :: n in local && IsBackupName(n) ==> n in after)
      && (forall n :: !IsBackupName(n) ==> Lookup(after, n) == Lookup(remote, n))
      && (forall n :: n in after && IsBackupName(n) && n !in local ==> n in net.stuck)
  {
    hide IsBackupName, NeedUpload, Complete, Broken;
    forall n
      ensures n in Uploads(m, net, local, remote, names).remote ==> n in remote || n in names
      ensures n !in names ==> Lookup(Uploads(m, net, local, remote, names).remote, n) == Lookup(remote, n)
    {
      UploadsTouch(m, net, local, remote, names, n);
    }
    forall n | n in names
      ensures n in Uploads(m, net, local, remote, names).remote
    {
      NeededIfMissing(m, local, remote, n);
      UploadsComplete(m, net, local, remote, names, n);
    }
  }

  /** A backup that is there locally but cannot be examined loses its remote copy. */
  lemma UnexaminedIsRemoved(m: Mode, net: Network, local: Disk, remote: Disk, blind: set<string>, names: seq<string>, n: string)
    requires ValidNetwork(net) && forall n :: n in names <==> n in local - blind && IsBackupName(n)
    requires !Synced(m, net, local - blind, remote, names).failed
    requires n in local && n in blind && n in remote && IsBackupName(n) && n !in net.stuck
    ensures n !in Synced(m, net, local - blind, remote, names).remote
  {
    hide IsBackupName;
    SyncMirrorsNames(m, net, local - blind, remote, names);
  }

  lemma NeededIfMissing(m: Mode, local: Disk, remote: Disk, n: string)
    requires n in local
    ensures n !in remote ==> NeedUpload(m, local[n], remote, n)
  {}

  /** If any upload fails, nothing is removed. */
  lemma FailedSyncRemovesNothing(m: Mode, net: Network, local: Disk, remote: Disk, names: seq<string>)
    requires ValidNetwork(net) && forall n :: n in names ==> n in local
    requires Synced(m, net, local, remote, names).failed
    ensures remote.Keys <= Synced(m, net, local, remote, names).remote.Keys
  {
    hide NeedUpload, Complete, Broken, Uploads;
    forall n | n in remote
      ensures n in Uploads(m, net, local, remote, names).remote
    {
      UploadsTouch(m, net, local, remote, names, n);
    }
  }

  /** After an error-free run whose uploads were stamped no earlier than the local files, another
      run with unchanged local files finds nothing to upload and nothing to remove. */
  lemma SyncIsStable(m: Mode, net: Network, local: Disk, remote: Disk, names: seq<string>)
    requires ValidNetwork(net) && forall n :: n in names <==> n in local && IsBackupName(n)
    requires !Synced(m, net, local, remote, names).failed
    requires forall n :: n in names && net.outcome(n).Done? ==> net.outcome(n).mtime >= local[n].mtime
    ensures UpToDate(m, local, Synced(m, net, local, remote, names).remote, net.stuck)
  {
    hide IsBackupName;
    SyncMirrorsNames(m, net, local, remote, names);
    var after := Synced(m, net, local, remote, names).remote;
    forall n | n in names
      ensures !NeedUpload(m, local[n], after, n)
    {
      UploadsComplete(m, net, local, remote, names, n);
      assert Lookup(after, n) == Lookup(Uploads(m, net, local, remote, names).remote, n);
    }
  }
}
