/** `FullReinit` of internal/restore/restore.go: the data directory is moved aside and replaced by a copy
    of the instance's template. Every effect is recorded, so that also the states in between are
    covered. */
module Reinit {
  import opened Text
  import opened Files

  /** Permission bits. */
  type Perm = set<nat>

  /** What a path in a tree can be. */
  datatype Item = Folder(perm: Perm) | Link(target: string) | Regular(data: seq<Byte>, perm: Perm)

  type Tree = map<string, Item>

  /** A directory tree by relative path, or a plain file. */
  datatype Node = Dir(entries: Tree) | Plain

  type Paths = map<string, Node>

  datatype Event =
    | Probed(open: bool)
    | StopCommand
    | Moved(from: string, to: string)
    | Wrote(path: string, node: Node)
    | StartCommand

  /** The path lies in the directory. */
  predicate Inside(p: string, dir: string) { dir + "/" <= p }

  /** What lies in a directory is moved with it. */
  function Effect(d: Paths, e: Event): Paths {
    match e
    case Moved(from, to) => if from in d then (map p | p in d && p != from && !Inside(p, from) :: d[p])[to := d[from]] else d
    case Wrote(path, node) => d[path := node]
    case _ => d
  }

  function Effects(d: Paths, events: seq<Event>): Paths {
    if events == [] then d else Effect(Effects(d, events[..|events| - 1]), events[|events| - 1])
  }

  /** The port at the last time it was looked at. */
  function LastProbe(events: seq<Event>): Option<bool> {
    if events == [] then None
    else if events[|events| - 1].Probed? then Some(events[|events| - 1].open)
    else LastProbe(events[..|events| - 1])
  }

  /** What one may see of a run at any time: nothing has been changed before the one move of `data` to
      `old`, which follows on seeing the port closed; after it only `data` is written; the server is stopped before the
      move and started after it, and from then on nothing is changed. */
  predicate Disciplined(events: seq<Event>, data: string, oldDir: string) {
    events == [] ||
    (var init, e := events[..|events| - 1], events[|events| - 1];
     && Disciplined(init, data, oldDir)
     && (e.Moved? ==> e == Moved(data, oldDir) && LastProbe(init) == Some(false) && !HasMoved(init))
     && (e.Wrote? ==> e.path == data && HasMoved(init))
     && Timely(init, e))
  }

  /** The commands come in their place. */
  predicate Timely(init: seq<Event>, e: Event) {
    match e
    case Moved(_, _) => StartCommand !in init
    case Wrote(_, _) => StartCommand !in init
    case StopCommand => !HasMoved(init)
    case StartCommand => HasMoved(init)
    case Probed(_) => true
  }

  predicate HasMoved(events: seq<Event>) {
    exists i :: 0 <= i < |events| && events[i].Moved?
  }

  /** The machine: directories, and what was done to it. */
  class Machine {
    var dirs: Paths
    ghost var trace: seq<Event>

    constructor (d: Paths)
      ensures dirs == d && trace == []
    {
      dirs, trace := d, [];
    }

    method Do(e: Event)
      modifies this
      ensures dirs == Effect(old(dirs), e) && trace == old(trace) + [e]
    {
      dirs, trace := Effect(dirs, e), trace + [e];
    }
  }

  /** The directories as configured; `sibling` is the directory `backup` beside the data directory, the template if none is
      configured. */
  datatype Config = Config(dataDir: string, backupDir: string, sibling: string, stopCmd: string, startCmd: string)

  function DataDir(cfg: Config): string { TrimSpace(cfg.dataDir) }

  function Template(cfg: Config): string {
    if TrimSpace(cfg.backupDir) == "" then cfg.sibling else TrimSpace(cfg.backupDir)
  }

  /** Where a copy breaks off, and what is in the file by then if there is one. */
  datatype Break = Break(entry: nat, written: Option<seq<Byte>>)

  /** The outside world: paths that cannot be examined, the permissions the process withholds from what it makes, the
      port at each look, and which operations fail. */
  datatype World = World(broken: set<string>, umask: Perm, open: bool, whileStopping: seq<bool>, whileStarting: seq<bool>,
                         stopFails: bool, renameFails: bool, makeFails: bool, copyFails: Option<Break>, startFails: bool)

  datatype Refusal = NoDataDir | BadTemplate | OldExists | OldUnclear | NoData | StopRequired | StopFailed
                   | StopTimeout | RenameFailed

  datatype Ending = StartRequired | StartFailed | StartTimeout | Done

  datatype Outcome = Refused(why: Refusal) | CopyFailed | Copied(end: Ending)

  /** The state of a run in terms of the directories it found. */
  ghost predicate RunState(m: Machine, d: Paths, data: string, oldDir: string)
    reads m
  {
    m.dirs == Effects(d, m.trace) && Disciplined(m.trace, data, oldDir)
  }

  lemma EffectsSnoc(d: Paths, events: seq<Event>, e: Event)
    ensures Effects(d, events + [e]) == Effect(Effects(d, events), e)
    ensures HasMoved(events + [e]) <==> HasMoved(events) || e.Moved?
    ensures LastProbe(events + [e]) == if e.Probed? then Some(e.open) else LastProbe(events)
    ensures forall data, oldDir :: Disciplined(events + [e], data, oldDir) <==>
      && Disciplined(events, data, oldDir)
      && (e.Moved? ==> e == Moved(data, oldDir) && LastProbe(events) == Some(false) && !HasMoved(events))
      && (e.Wrote? ==> e.path == data && HasMoved(events))
      && Timely(events, e)
  {
    hide Timely;
    var all := events + [e];
    assert all[..|all| - 1] == events && all[|all| - 1] == e;
    if HasMoved(events) {
      var i :| 0 <= i < |events| && events[i].Moved?;
      assert all[i].Moved?;
    }
    if e.Moved? { assert all[|events|].Moved?; }
  }

  method Perform(m: Machine, e: Event, ghost d: Paths, ghost data: string, ghost oldDir: string)
    requires RunState(m, d, data, oldDir)
    requires e.Moved? ==> e == Moved(data, oldDir) && LastProbe(m.trace) == Some(false) && !HasMoved(m.trace)
    requires e.Wrote? ==> e.path == data && HasMoved(m.trace)
    requires Timely(m.trace, e)
    modifies m
    ensures RunState(m, d, data, oldDir) && m.dirs == Effect(old(m.dirs), e) && m.trace == old(m.trace) + [e]
    ensures HasMoved(m.trace) <==> HasMoved(old(m.trace)) || e.Moved?
    ensures LastProbe(m.trace) == if e.Probed? then Some(e.open) else LastProbe(old(m.trace))
  {
    EffectsSnoc(d, m.trace, e);
    hide Disciplined, HasMoved, LastProbe, Effects, Effect;
    m.Do(e);
  }

  /** Which of the two commands were given. */
  function Commands(events: seq<Event>): (bool, bool) { (StopCommand in events, StartCommand in events) }

  lemma CommandsSnoc(events: seq<Event>, e: Event)
    ensures Commands(events + [e]) == (Commands(events).0 || e.StopCommand?, Commands(events).1 || e.StartCommand?)
  {}

  /** `waitForPortState`: looks until the port is as wanted or time is up. */
  method WaitForPortState(m: Machine, want: bool, looks: seq<bool>, ghost d: Paths, ghost data: string, ghost oldDir: string)
    returns (ok: bool)
    requires RunState(m, d, data, oldDir)
    modifies m
    ensures RunState(m, d, data, oldDir) && m.dirs == old(m.dirs) && HasMoved(m.trace) == HasMoved(old(m.trace))
    ensures Commands(m.trace) == Commands(old(m.trace))
    ensures ok <==> want in looks
    ensures ok ==> LastProbe(m.trace) == Some(want)
  {
    hide Disciplined, HasMoved, LastProbe, Effects;
    for i := 0 to |looks|
      invariant RunState(m, d, data, oldDir) && m.dirs == old(m.dirs) && HasMoved(m.trace) == HasMoved(old(m.trace))
      invariant Commands(m.trace) == Commands(old(m.trace)) && want !in looks[..i]
    {
      Perform(m, Probed(looks[i]), d, data, oldDir);
      if looks[i] == want { return true; }
      assert forall b :: b in looks[..i + 1] <==> b in looks[..i] || b == looks[i];
    }
    assert looks[..|looks|] == looks;
    return false;
  }

  /** A copy of one item: the permissions are those of the original, less what the process withholds. */
  function CopyOf(item: Item, umask: Perm): Item {
    match item
    case Folder(perm) => Folder(perm - umask)
    case Link(target) => Link(target)
    case Regular(data, perm) => Regular(data, perm - umask)
  }

  /** The copies of the items in `names`. */
  function Copies(entries: Tree, umask: Perm, names: seq<string>): Tree {
    map n | n in entries && n in names :: CopyOf(entries[n], umask)
  }

  function CopyOfTree(entries: Tree, umask: Perm): Tree { map n | n in entries :: CopyOf(entries[n], umask) }

  /** Two trees with the same paths, links and contents. */
  ghost predicate SameContents(t: Tree, u: Tree) {
    t.Keys == u.Keys && forall n :: n in t ==>
      match t[n]
      case Folder(_) => u[n].Folder?
      case Link(target) => u[n] == Link(target)
      case Regular(data, _) => u[n].Regular? && u[n].data == data
  }

  /** The copy has the contents of the template, and is equal to it if nothing is withheld. */
  lemma CopyIsSame(entries: Tree, umask: Perm)
    ensures SameContents(entries, CopyOfTree(entries, umask))
    ensures forall n :: n in entries && !entries[n].Link? ==> CopyOfTree(entries, umask)[n].perm == entries[n].perm - umask
    ensures umask == {} ==> CopyOfTree(entries, umask) == entries
  {
    if umask == {} {
      forall n | n in entries
        ensures CopyOf(entries[n], umask) == entries[n]
      {
        match entries[n]
        case Folder(perm) => assert perm - {} == perm;
        case Link(_) =>
        case Regular(_, perm) => assert perm - {} == perm;
      }
    }
  }

  predicate IsTree(d: Paths, path: string) { path in d && d[path].Dir? }

  /** `copyDir`: the target is made, then the items of the template are copied one by one. */
  method CopyDir(m: Machine, src: string, dst: string, order: seq<string>, makeFails: bool, fails: Option<Break>, umask: Perm,
                 ghost d: Paths, ghost oldDir: string)
    returns (ok: bool)
    requires RunState(m, d, dst, oldDir) && HasMoved(m.trace) && StartCommand !in m.trace && dst !in m.dirs
    requires src in m.dirs && m.dirs[src].Dir? ==> Enumerates(order, m.dirs[src].entries.Keys)
    modifies m
    ensures RunState(m, d, dst, oldDir) && HasMoved(m.trace) && Commands(m.trace) == Commands(old(m.trace))
    ensures forall p :: p != dst ==> (p in m.dirs <==> p in old(m.dirs)) && (p in m.dirs ==> m.dirs[p] == old(m.dirs)[p])
    ensures dst in m.dirs <==> !makeFails
    ensures !makeFails && (src == dst || src !in old(m.dirs)) ==> m.dirs[dst] == Dir(map[])
    ensures ok <==> !makeFails && (src == dst || (IsTree(old(m.dirs), src) && !(fails.Some? && fails.value.entry < |order|)))
    ensures ok && src != dst ==> m.dirs[dst] == Dir(CopyOfTree(old(m.dirs)[src].entries, umask))
  {
    hide RunState, HasMoved, LastProbe, Copies, CopyOf, CopyOfTree, Enumerates;
    if makeFails { return false; }
    Perform(m, Wrote(dst, Dir(map[])), d, dst, oldDir);
    if src == dst { return true; }
    if src !in m.dirs || m.dirs[src].Plain? { return false; }
    var entries := m.dirs[src].entries;
    CopiesEnd(entries, umask, order);
    for i := 0 to |order|
      invariant RunState(m, d, dst, oldDir) && HasMoved(m.trace) && dst in m.dirs && Commands(m.trace) == Commands(old(m.trace))
      invariant forall p :: p != dst ==> (p in m.dirs <==> p in old(m.dirs)) && (p in m.dirs ==> m.dirs[p] == old(m.dirs)[p])
      invariant m.dirs[dst] == Dir(Copies(entries, umask, order[..i]))
      invariant fails.Some? ==> fails.value.entry >= i
    {
      CopiesStep(entries, umask, order, i);
      var copy := CopyOf(entries[order[i]], umask);
      if fails.Some? && fails.value.entry == i {
        if fails.value.written.Some? && copy.Regular? {
          Perform(m, Wrote(dst, Dir(m.dirs[dst].entries[order[i] := copy.(data := fails.value.written.value)])), d, dst, oldDir);
        }
        return false;
      }
      Perform(m, Wrote(dst, Dir(m.dirs[dst].entries[order[i] := copy])), d, dst, oldDir);
    }
    assert order[..|order|] == order;
    return true;
  }

  lemma CopiesEnd(entries: Tree, umask: Perm, order: seq<string>)
    requires Enumerates(order, entries.Keys)
    ensures Copies(entries, umask, order[..0]) == map[] && Copies(entries, umask, order) == CopyOfTree(entries, umask)
  {
    hide CopyOf;
  }

  lemma CopiesStep(entries: Tree, umask: Perm, order: seq<string>, i: nat)
    requires Enumerates(order, entries.Keys) && i < |order|
    ensures order[i] in entries
    ensures Copies(entries, umask, order[..i])[order[i] := CopyOf(entries[order[i]], umask)] == Copies(entries, umask, order[..i + 1])
  {
    hide CopyOf;
    assert order[i] in order;
    assert forall n :: n in order[..i + 1] <==> n in order[..i] || n == order[i];
  }

  /** The name the data directory is moved to. */
  function OldName(data: string): (r: string)
    ensures r == data + ".old" && r != data && !Inside(r, data)
  {
    var r := data + ".old";
    assert r[|data|] == '.';
    r
  }

  /** The path can be examined and is a directory. */
  predicate Readable(w: World, dirs: Paths, path: string) { path !in w.broken && IsTree(dirs, path) }

  /** The checks made before anything is done, in their order. */
  function Preflight(cfg: Config, w: World, dirs: Paths): (r: Option<Refusal>)
    ensures r == Some(NoDataDir) <==> TrimSpace(cfg.dataDir) == ""
    ensures r == Some(BadTemplate) <==> TrimSpace(cfg.dataDir) != "" && !Readable(w, dirs, Template(cfg))
    ensures r == Some(OldUnclear) <==>
      TrimSpace(cfg.dataDir) != "" && Readable(w, dirs, Template(cfg)) && TrimSpace(cfg.dataDir) + ".old" in w.broken
    ensures r == Some(OldExists) <==>
      && TrimSpace(cfg.dataDir) != "" && Readable(w, dirs, Template(cfg))
      && TrimSpace(cfg.dataDir) + ".old" !in w.broken && TrimSpace(cfg.dataDir) + ".old" in dirs
    ensures r == Some(NoData) <==>
      && TrimSpace(cfg.dataDir) != "" && Readable(w, dirs, Template(cfg))
      && TrimSpace(cfg.dataDir) + ".old" !in w.broken && TrimSpace(cfg.dataDir) + ".old" !in dirs
      && (TrimSpace(cfg.dataDir) in w.broken || TrimSpace(cfg.dataDir) !in dirs)
    ensures r.None? <==>
      && TrimSpace(cfg.dataDir) != "" && Readable(w, dirs, Template(cfg))
      && TrimSpace(cfg.dataDir) + ".old" !in w.broken && TrimSpace(cfg.dataDir) + ".old" !in dirs
      && TrimSpace(cfg.dataDir) !in w.broken && TrimSpace(cfg.dataDir) in dirs
  {
    hide TrimSpace, Template;
    var data, dataOld, template := DataDir(cfg), OldName(DataDir(cfg)), Template(cfg);
    if data == "" then Some(NoDataDir)
    else if template in w.broken || template !in dirs || dirs[template].Plain? then Some(BadTemplate)
    else if dataOld in w.broken then Some(OldUnclear)
    else if dataOld in dirs then Some(OldExists)
    else if data in w.broken || data !in dirs then Some(NoData)
    else None
  }

  /** What can go wrong with stopping the server. */
  function StopVerdict(cfg: Config, w: World): Option<Refusal> {
    if !w.open then None
    else if TrimSpace(cfg.stopCmd) == "" then Some(StopRequired)
    else if w.stopFails then Some(StopFailed)
    else if false in w.whileStopping then None
    else Some(StopTimeout)
  }

  /** The server is stopped if its port is open; without an error the port was last seen closed. */
  method StopServer(cfg: Config, m: Machine, w: World, ghost d: Paths, ghost oldDir: string)
    returns (failed: Option<Refusal>)
    requires RunState(m, d, DataDir(cfg), oldDir) && !HasMoved(m.trace)
    modifies m
    ensures RunState(m, d, DataDir(cfg), oldDir) && m.dirs == old(m.dirs) && HasMoved(m.trace) == HasMoved(old(m.trace))
    ensures failed.None? ==> LastProbe(m.trace) == Some(false)
    ensures failed == StopVerdict(cfg, w)
    ensures StopCommand in m.trace <==> StopCommand in old(m.trace) || (w.open && TrimSpace(cfg.stopCmd) != "")
    ensures StartCommand in m.trace <==> StartCommand in old(m.trace)
  {
    hide RunState, HasMoved, LastProbe, TrimSpace;
    Perform(m, Probed(w.open), d, DataDir(cfg), oldDir);
    if w.open {
      if TrimSpace(cfg.stopCmd) == "" { return Some(StopRequired); }
      Perform(m, StopCommand, d, DataDir(cfg), oldDir);
      if w.stopFails { return Some(StopFailed); }
      var closed := WaitForPortState(m, false, w.whileStopping, d, DataDir(cfg), oldDir);
      if !closed { return Some(StopTimeout); }
    }
    return None;
  }

  /** How starting the server ends. */
  function StartVerdict(cfg: Config, w: World): Ending {
    if TrimSpace(cfg.startCmd) == "" then StartRequired else if w.startFails then StartFailed
    else if true in w.whileStarting then Done else StartTimeout
  }

  /** What the two verdicts mean. */
  lemma VerdictsSay(cfg: Config, w: World)
    ensures StopVerdict(cfg, w).None? <==> !w.open || (TrimSpace(cfg.stopCmd) != "" && !w.stopFails && false in w.whileStopping)
    ensures StopVerdict(cfg, w) == Some(StopRequired) <==> w.open && TrimSpace(cfg.stopCmd) == ""
    ensures StopVerdict(cfg, w) == Some(StopFailed) <==> w.open && TrimSpace(cfg.stopCmd) != "" && w.stopFails
    ensures StopVerdict(cfg, w) == Some(StopTimeout) <==>
      w.open && TrimSpace(cfg.stopCmd) != "" && !w.stopFails && false !in w.whileStopping
    ensures StartVerdict(cfg, w) == Done <==> TrimSpace(cfg.startCmd) != "" && !w.startFails && true in w.whileStarting
    ensures StartVerdict(cfg, w) == StartRequired <==> TrimSpace(cfg.startCmd) == ""
    ensures StartVerdict(cfg, w) == StartFailed <==> TrimSpace(cfg.startCmd) != "" && w.startFails
  {
    hide TrimSpace;
  }

  method StartServer(cfg: Config, m: Machine, w: World, ghost d: Paths, ghost oldDir: string) returns (r: Ending)
    requires RunState(m, d, DataDir(cfg), oldDir) && HasMoved(m.trace)
    modifies m
    ensures RunState(m, d, DataDir(cfg), oldDir) && m.dirs == old(m.dirs) && HasMoved(m.trace) == HasMoved(old(m.trace))
    ensures r.Done? ==> LastProbe(m.trace) == Some(true)
    ensures r == StartVerdict(cfg, w)
    ensures StopCommand in m.trace <==> StopCommand in old(m.trace)
    ensures StartCommand in m.trace <==> StartCommand in old(m.trace) || TrimSpace(cfg.startCmd) != ""
  {
    hide RunState, HasMoved, LastProbe, TrimSpace;
    if TrimSpace(cfg.startCmd) == "" { return StartRequired; }
    Perform(m, StartCommand, d, DataDir(cfg), oldDir);
    if w.startFails { return StartFailed; }
    var up := WaitForPortState(m, true, w.whileStarting, d, DataDir(cfg), oldDir);
    if !up { return StartTimeout; }
    return Done;
  }

  /** `FullReinit`. Whatever happens, the events keep the discipline above; `data` is moved only if the preflight found it
      and found the `.old` name free; and when the server is started again, `data` is a copy of the configured
      template, or of the directory beside `data` if none is configured. */
  method FullReinit(cfg: Config, m: Machine, w: World, order: seq<string>) returns (r: Outcome)
    requires m.trace == []
    requires Template(cfg) in m.dirs && m.dirs[Template(cfg)].Dir? ==> Enumerates(order, m.dirs[Template(cfg)].entries.Keys)
    modifies m
    ensures RunState(m, old(m.dirs), TrimSpace(cfg.dataDir), TrimSpace(cfg.dataDir) + ".old")
    ensures HasMoved(m.trace) <==> !r.Refused?
    ensures r.Refused? <==> Preflight(cfg, w, old(m.dirs)).Some? || StopVerdict(cfg, w).Some? || w.renameFails
    ensures r.Refused? ==> r.why == if Preflight(cfg, w, old(m.dirs)).Some? then Preflight(cfg, w, old(m.dirs)).value
                                    else if StopVerdict(cfg, w).Some? then StopVerdict(cfg, w).value else RenameFailed
    ensures r.Refused? ==> m.dirs == old(m.dirs)
    ensures !r.Refused? ==> TrimSpace(cfg.dataDir) in old(m.dirs) && TrimSpace(cfg.dataDir) + ".old" !in old(m.dirs)
    ensures !r.Refused? ==> (TrimSpace(cfg.dataDir) in m.dirs <==> !w.makeFails)
    ensures !r.Refused? ==> (r.CopyFailed? <==> CopyBreaks(w, order, Template(cfg), TrimSpace(cfg.dataDir)))
    ensures !r.Refused? && !w.makeFails && TrimSpace(cfg.dataDir) + "/" <= Template(cfg) ==> m.dirs[TrimSpace(cfg.dataDir)] == Dir(map[])
    ensures !r.Refused? && !w.makeFails && Template(cfg) == TrimSpace(cfg.dataDir) ==> m.dirs[TrimSpace(cfg.dataDir)] == Dir(map[])
    ensures r.Copied? && TrimSpace(cfg.backupDir) != "" && TrimSpace(cfg.backupDir) != TrimSpace(cfg.dataDir) ==>
      && IsTree(old(m.dirs), TrimSpace(cfg.backupDir))
      && m.dirs[TrimSpace(cfg.dataDir)] == Dir(CopyOfTree(old(m.dirs)[TrimSpace(cfg.backupDir)].entries, w.umask))
    ensures r.Copied? && TrimSpace(cfg.backupDir) == "" && cfg.sibling != TrimSpace(cfg.dataDir) ==>
      && IsTree(old(m.dirs), cfg.sibling)
      && m.dirs[TrimSpace(cfg.dataDir)] == Dir(CopyOfTree(old(m.dirs)[cfg.sibling].entries, w.umask))
    ensures r.Copied? ==> r.end == StartVerdict(cfg, w)
    ensures r == Copied(Done) ==> LastProbe(m.trace) == Some(true)
    ensures StopCommand in m.trace <==> Preflight(cfg, w, old(m.dirs)).None? && w.open && TrimSpace(cfg.stopCmd) != ""
    ensures StartCommand in m.trace <==> r.Copied? && TrimSpace(cfg.startCmd) != ""
  {
    var dataOld := OldName(DataDir(cfg));
    ghost var d := m.dirs;
    RunStarts(m, DataDir(cfg), dataOld);
    hide RunState, HasMoved, LastProbe, Enumerates, Preflight, StopVerdict, StartVerdict, CopyOfTree, TrimSpace;
    var refused := Preflight(cfg, w, m.dirs);
    if refused.Some? { return Refused(refused.value); }
    var failed := StopServer(cfg, m, w, d, dataOld);
    if failed.Some? { return Refused(failed.value); }
    if w.renameFails { return Refused(RenameFailed); }
    r := Rebuild(cfg, m, w, order, d, dataOld);
  }

  /** Making or filling the new directory breaks off, or there is nothing to copy any more because the template was moved
      away with `data`. */
  predicate CopyBreaks(w: World, order: seq<string>, template: string, data: string) {
    || w.makeFails
    || data + "/" <= template
    || (template != data && w.copyFails.Some? && w.copyFails.value.entry < |order|)
  }

  /** Everything from the move on. */
  method Rebuild(cfg: Config, m: Machine, w: World, order: seq<string>, ghost d: Paths, dataOld: string)
    returns (r: Outcome)
    requires RunState(m, d, DataDir(cfg), dataOld) && LastProbe(m.trace) == Some(false) && !HasMoved(m.trace)
    requires StartCommand !in m.trace && DataDir(cfg) in m.dirs && dataOld !in m.dirs && DataDir(cfg) != dataOld && !Inside(dataOld, DataDir(cfg))
    requires Template(cfg) in m.dirs && m.dirs[Template(cfg)].Dir? && Enumerates(order, m.dirs[Template(cfg)].entries.Keys)
    modifies m
    ensures RunState(m, d, DataDir(cfg), dataOld) && HasMoved(m.trace) && !r.Refused?
    ensures DataDir(cfg) in m.dirs <==> !w.makeFails
    ensures r.CopyFailed? <==> CopyBreaks(w, order, Template(cfg), DataDir(cfg))
    ensures !w.makeFails && (Inside(Template(cfg), DataDir(cfg)) || Template(cfg) == DataDir(cfg)) ==> m.dirs[DataDir(cfg)] == Dir(map[])
    ensures r.Copied? ==> r.end == StartVerdict(cfg, w)
    ensures StopCommand in m.trace <==> StopCommand in old(m.trace)
    ensures StartCommand in m.trace <==> StartCommand in old(m.trace) || (r.Copied? && TrimSpace(cfg.startCmd) != "")
    ensures r.Copied? && Template(cfg) != DataDir(cfg) ==>
      m.dirs[DataDir(cfg)] == Dir(CopyOfTree(old(m.dirs)[Template(cfg)].entries, w.umask))
    ensures r == Copied(Done) ==> LastProbe(m.trace) == Some(true)
  {
    hide RunState, HasMoved, LastProbe, Enumerates, Template, TrimSpace;
    var copied := Replace(cfg, m, w, order, d, dataOld);
    if !copied { return CopyFailed; }
    var end := StartServer(cfg, m, w, d, dataOld);
    return Copied(end);
  }

  /** The move and the copy. */
  method Replace(cfg: Config, m: Machine, w: World, order: seq<string>, ghost d: Paths, dataOld: string)
    returns (copied: bool)
    requires RunState(m, d, DataDir(cfg), dataOld) && LastProbe(m.trace) == Some(false) && !HasMoved(m.trace)
    requires StartCommand !in m.trace && DataDir(cfg) in m.dirs && dataOld !in m.dirs && DataDir(cfg) != dataOld && !Inside(dataOld, DataDir(cfg))
    requires Template(cfg) in m.dirs && m.dirs[Template(cfg)].Dir? && Enumerates(order, m.dirs[Template(cfg)].entries.Keys)
    modifies m
    ensures RunState(m, d, DataDir(cfg), dataOld) && HasMoved(m.trace) && Commands(m.trace) == Commands(old(m.trace))
    ensures DataDir(cfg) in m.dirs <==> !w.makeFails
    ensures !copied <==> CopyBreaks(w, order, Template(cfg), DataDir(cfg))
    ensures !w.makeFails && (Inside(Template(cfg), DataDir(cfg)) || Template(cfg) == DataDir(cfg)) ==> m.dirs[DataDir(cfg)] == Dir(map[])
    ensures copied && Template(cfg) != DataDir(cfg) ==>
      m.dirs[DataDir(cfg)] == Dir(CopyOfTree(old(m.dirs)[Template(cfg)].entries, w.umask))
  {
    hide RunState, HasMoved, LastProbe, Enumerates, Template, TrimSpace, CopyOfTree, Commands, DataDir;
    CommandsSnoc(m.trace, Moved(DataDir(cfg), dataOld));
    Perform(m, Moved(DataDir(cfg), dataOld), d, DataDir(cfg), dataOld);
    copied := CopyDir(m, Template(cfg), DataDir(cfg), order, w.makeFails, w.copyFails, w.umask, d, dataOld);
  }

  lemma RunStarts(m: Machine, data: string, oldDir: string)
    requires m.trace == []
    ensures RunState(m, m.dirs, data, oldDir) && !HasMoved(m.trace)
  {}

  // ----- The original is never lost -----------------------------------------

  lemma {:induction false} DisciplinedPrefix(events: seq<Event>, k: nat, data: string, oldDir: string)
    requires Disciplined(events, data, oldDir) && k <= |events|
    ensures Disciplined(events[..k], data, oldDir)
    decreases |events|
  {
    if k == |events| {
      assert events[..k] == events;
    } else {
      var init := events[..|events| - 1];
      DisciplinedPrefix(init, k, data, oldDir);
      assert init[..k] == events[..k];
    }
  }

  /** The original tree is in exactly one place, and everything outside it is as it was. */
  ghost predicate OriginalSafe(d: Paths, e: Paths, moved: bool, data: string, oldDir: string)
    requires data in d
  {
    if !moved then e == d
    else
      && oldDir in e && e[oldDir] == d[data]
      && forall p :: p != data && p != oldDir && !Inside(p, data) ==> (p in e <==> p in d) && (p in e ==> e[p] == d[p])
  }

  lemma {:induction false} DisciplineKeeps(d: Paths, events: seq<Event>, data: string, oldDir: string)
    requires Disciplined(events, data, oldDir) && data in d && data != oldDir
    ensures OriginalSafe(d, Effects(d, events), HasMoved(events), data, oldDir)
  {
    if events != [] {
      var init, e := events[..|events| - 1], events[|events| - 1];
      DisciplineKeeps(d, init, data, oldDir);
      assert events == init + [e];
      EffectsSnoc(d, init, e);
      hide Effects, Disciplined, HasMoved, LastProbe;
    }
  }

  /** At every moment of a run, also if it is cut off there, the original data tree is
      untouched in its place, or intact under the `.old` name, which was free. */
  lemma OriginalNeverLost(d: Paths, events: seq<Event>, k: nat, data: string, oldDir: string)
    requires Disciplined(events, data, oldDir) && data in d && data != oldDir && k <= |events|
    ensures OriginalSafe(d, Effects(d, events[..k]), HasMoved(events[..k]), data, oldDir)
  {
    DisciplinedPrefix(events, k, data, oldDir);
    DisciplineKeeps(d, events[..k], data, oldDir);
  }

  /** Once the server is started, the directories are as they stay. */
  lemma {:induction false} StartedOnCopy(d: Paths, events: seq<Event>, data: string, oldDir: string, i: nat)
    requires Disciplined(events, data, oldDir) && i < |events| && events[i].StartCommand?
    ensures Effects(d, events[..i]) == Effects(d, events) && HasMoved(events[..i])
    decreases |events|
  {
    var init, e := events[..|events| - 1], events[|events| - 1];
    assert events == init + [e];
    EffectsSnoc(d, init, e);
    if i == |init| {
      assert events[..i] == init;
    } else {
      assert init[..i] == events[..i] && init[i] == events[i];
      assert StartCommand in init;
      StartedOnCopy(d, init, data, oldDir, i);
    }
  }

  /** The move is made at a moment when the port was last seen closed. */
  lemma {:induction false} MoveAfterClosedPort(events: seq<Event>, data: string, oldDir: string, i: nat)
    requires Disciplined(events, data, oldDir) && i < |events| && events[i].Moved?
    ensures LastProbe(events[..i]) == Some(false) && !HasMoved(events[..i]) && events[i] == Moved(data, oldDir)
  {
    DisciplinedPrefix(events, i + 1, data, oldDir);
    var upTo := events[..i + 1];
    assert upTo[..|upTo| - 1] == events[..i] && upTo[|upTo| - 1] == events[i];
  }
}
