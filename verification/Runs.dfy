/** Whole sessions: sequences of calls, and mounting again after a flush. */
module Runs {
  import opened Bytes
  import opened Disk
  import opened Geometry
  import opened Chains
  import opened Directories
  import opened ShortNames
  import opened Volumes
  import opened EntrySteps
  import opened FatTable
  import opened Space
  import opened Outcomes
  import opened Paths
  import opened Fat12
  import opened Driver

  datatype Command =
    | Write(path: seq<byte>, data: seq<byte>)
    | MakeDirectory(path: seq<byte>)
    | Delete(path: seq<byte>)
    | Change(path: seq<byte>)
    | Sync

  /** The volume and the current directory between two commands, whether the caches are clean, and the number of commands that
      the disk has been given. */
  datatype Snapshot = Snapshot(img: Image, tree: Tree, here: Position, clean: bool, clock: nat)

  ghost function Now(driver: Fat12Driver): (s: Snapshot)
    requires driver.fs.Mounted()
    reads driver, driver.fs, driver.fs.table, driver.fs.table.bytes, driver.fs.root, driver.fs.dev
  {
    Snapshot(driver.fs.View(), driver.fs.tree, driver.Here(), !driver.fs.rootDirty && !driver.fs.table.dirty, driver.fs.dev.clock)
  }

  /** What a command's path names in a state. */
  ghost function Aim(c: Command, s: Snapshot): Target {
    if !Small(s.here) then NoTarget(OK)
    else match c
      case Write(path, _) => Resolve(s.img, s.tree.alloc, s.here, path)
      case MakeDirectory(path) => Resolve(s.img, s.tree.alloc, s.here, path)
      case Delete(path) => Resolve(s.img, s.tree.alloc, s.here, path)
      case _ => NoTarget(OK)
  }

  /** What a command that left the volume whole did, judged by its result. */
  ghost predicate Does(c: Command, res: int, s: Snapshot, s': Snapshot) {
    && Small(s.here) && Explained(c, res, s)
    && match c
       case Write(_, data) =>
         && s'.here == s.here
         && (if res == OK then
               var aim := Aim(c, s);
               aim.Target? && FileChanged(s.img, s.tree, s'.img, s'.tree, aim.dir, aim.name, Some(data))
             else SameFiles(s.img, s.tree, s'.img, s'.tree))
       case MakeDirectory(_) =>
         && s'.here == s.here
         && (if res == OK then
               var aim := Aim(c, s);
               && aim.Target? && Entry(s.img, s.tree.alloc, aim.dir, aim.name).None?
               && FolderAt(s'.img, s'.tree, aim.dir, aim.name).Some?
               && FolderChanged(s.img, s.tree, s'.img, s'.tree, aim.dir, aim.name,
                                FolderAt(s'.img, s'.tree, aim.dir, aim.name).value)
             else SameFiles(s.img, s.tree, s'.img, s'.tree))
       case Delete(_) =>
         && s'.here == s.here
         && (if res == OK then
               var aim := Aim(c, s);
               && aim.Target? && FileAt(s.img, s.tree, aim.dir, aim.name).Some?
               && FileChanged(s.img, s.tree, s'.img, s'.tree, aim.dir, aim.name, None)
             else s'.img == s.img && s'.tree == s.tree)
       case Change(path) =>
         && s'.img == s.img && s'.tree == s.tree
         && (if res == OK then ChangeDirectory(s.img, s.tree.alloc, s.here, path) == At(s'.here) else s'.here == s.here)
       case Sync =>
         s'.img == s.img && s'.tree == s.tree && s'.here == s.here && (res == OK ==> s'.clean)
  }

  /** What the result of a command on any disk says about the state before it. */
  ghost predicate Explained(c: Command, res: int, s: Snapshot) {
    res == ERR_IO ||
    match c
    case Write(_, _) =>
      (match Aim(c, s)
       case NoTarget(code) => res == code
       case Target(d, n) =>
         && res in {OK, ERR_ALREADY_EXISTS, ERR_DIR_FULL, ERR_NO_FREE_CLUSTER}
         && (res == ERR_ALREADY_EXISTS ==> FolderAt(s.img, s.tree, d, n).Some?)
         && (res == ERR_DIR_FULL ==> d == 0 && Entry(s.img, s.tree.alloc, d, n).None? && DirFull(s.img, s.tree.alloc, d)))
    case MakeDirectory(_) =>
      (match Aim(c, s)
       case NoTarget(code) => res == code
       case Target(d, n) =>
         && res in {OK, ERR_ALREADY_EXISTS, ERR_DIR_FULL, ERR_NO_FREE_CLUSTER}
         && (res == ERR_ALREADY_EXISTS ==> Entry(s.img, s.tree.alloc, d, n).Some?)
         && (res == ERR_DIR_FULL ==> d == 0 && Entry(s.img, s.tree.alloc, d, n).None? && DirFull(s.img, s.tree.alloc, d)))
    case _ => res == Expected(c, s, 0)
  }

  /** A command that may have damaged the volume, and what it did to it: a disk error while a slot of a subdirectory was written,
      or a directory made over an entry there. Nothing outside that directory has changed. */
  ghost predicate Breaks(c: Command, res: int, s: Snapshot, s': Snapshot, clusterSize: nat) {
    && Small(s.here) && s'.here == s.here && Aim(c, s).Target? && Aim(c, s).dir != 0
    && (var d, n := Aim(c, s).dir, Aim(c, s).name;
        && ElsewhereSame(s.img, s.tree, s'.img, s'.tree, d)
        && match c
           case Write(_, data) => res == ERR_IO && Expected(c, s, clusterSize) == OK
           case MakeDirectory(_) =>
             && StoreOutcome(s.img, s.tree.alloc, d, n, 1) == OK
             && (if res == OK then exists h :: Overwritten(s.img, s.tree, s'.img, s'.tree, d, n, h) else res == ERR_IO)
           case Delete(_) => res == ERR_IO && Undeleted(s.img, s.tree, s'.img, s'.tree, clusterSize, d, n)
           case _ => false)
  }

  /** The result of a command during which the disk does not fail. */
  ghost function Expected(c: Command, s: Snapshot, clusterSize: nat): int {
    match c
    case Write(_, data) =>
      (match Aim(c, s)
       case NoTarget(code) => code
       case Target(d, n) => WriteOutcome(s.img, s.tree, d, n, ClustersNeeded(|data|, clusterSize)))
    case MakeDirectory(_) =>
      (match Aim(c, s) case NoTarget(code) => code case Target(d, n) => MakeOutcome(s.img, s.tree, d, n))
    case Delete(_) =>
      (match Aim(c, s) case NoTarget(code) => code case Target(d, n) => DeleteOutcome(s.img, s.tree, d, n))
    case Change(path) =>
      if !Small(s.here) then OK
      else (match ChangeDirectory(s.img, s.tree.alloc, s.here, path) case At(_) => OK case Stuck(code) => code)
    case Sync => OK
  }

  // ---------------------------------------------------------------- histories

  /** A run so far: `trace[i]` is the state before the i-th command. */
  ghost predicate IsHistory(commands: seq<Command>, results: seq<int>, trace: seq<Snapshot>) {
    && 0 < |trace| <= |results| + 1 && |results| <= |commands|
    && forall i | 0 <= i < |trace| - 1 :: Does(commands[i], results[i], trace[i], trace[i + 1])
  }

  /** What one command did to the files and directories, by its result and what its path named at the time. */
  datatype Update = Nothing | SetFile(dir: nat, name: ShortName, content: Option<seq<byte>>) | AddFolder(dir: nat, name: ShortName)

  ghost function Effect(c: Command, res: int, s: Snapshot): Update {
    if res != OK || Aim(c, s).NoTarget? then Nothing
    else match c
      case Write(_, data) => SetFile(Aim(c, s).dir, Aim(c, s).name, Some(data))
      case Delete(_) => SetFile(Aim(c, s).dir, Aim(c, s).name, None)
      case MakeDirectory(_) => AddFolder(Aim(c, s).dir, Aim(c, s).name)
      case _ => Nothing
  }

  ghost function Log(commands: seq<Command>, results: seq<int>, trace: seq<Snapshot>): (log: seq<Update>)
    requires IsHistory(commands, results, trace)
  {
    seq(|trace| - 1, i requires 0 <= i < |trace| - 1 => Effect(commands[i], results[i], trace[i]))
  }

  /** The content of a file after a log of updates: the last one for its name counts. */
  ghost function Replayed(initial: Option<seq<byte>>, log: seq<Update>, d: nat, n: ShortName): Option<seq<byte>> {
    if log == [] then initial
    else
      var last := log[|log| - 1];
      if last.SetFile? && last.dir == d && last.name == n then last.content
      else Replayed(initial, log[..|log| - 1], d, n)
  }

  /** Whether a name is that of a directory after a log of updates: it was one, or one was made. */
  ghost predicate Made(initial: bool, log: seq<Update>, d: nat, n: ShortName) {
    initial || exists i | 0 <= i < |log| :: log[i] == AddFolder(d, n)
  }

  /** Every file is what the last successful command whose path named it made of it, and the directories are those there
      were and those that were made. */
  lemma {:induction false} HistoryTells(commands: seq<Command>, results: seq<int>, trace: seq<Snapshot>, d: nat, n: ShortName)
    requires IsHistory(commands, results, trace)
    ensures var first, last := trace[0], trace[|trace| - 1]; var log := Log(commands, results, trace);
            && FileAt(last.img, last.tree, d, n) == Replayed(FileAt(first.img, first.tree, d, n), log, d, n)
            && (FolderAt(last.img, last.tree, d, n).Some? <==> Made(FolderAt(first.img, first.tree, d, n).Some?, log, d, n))
    decreases |trace|
  {
    hide Does, Effect;
    if |trace| > 1 {
      var k := |trace| - 2;
      var before := trace[..k + 1];
      HistoryTells(commands, results, before, d, n);
      var log := Log(commands, results, trace);
      assert log[..k] == Log(commands, results, before);
      assert Does(commands[k], results[k], trace[k], trace[k + 1]);
      OneUpdate(commands[k], results[k], trace[k], trace[k + 1], d, n);
      assert log == log[..k] + [log[k]];
    }
  }

  lemma OneUpdate(c: Command, res: int, s: Snapshot, s': Snapshot, d: nat, n: ShortName)
    requires Does(c, res, s, s')
    ensures var u := Effect(c, res, s);
            && FileAt(s'.img, s'.tree, d, n) ==
                 (if u.SetFile? && u.dir == d && u.name == n then u.content else FileAt(s.img, s.tree, d, n))
            && (FolderAt(s'.img, s'.tree, d, n).Some? <==> FolderAt(s.img, s.tree, d, n).Some? || u == AddFolder(d, n))
  {
    hide FileAt, Entry, Explained;
  }

  // ---------------------------------------------------------------- running

  /** A command, judged by its result and by whether it left the volume whole. */
  ghost predicate Done(c: Command, res: int, kept: bool, s: Snapshot, s': Snapshot, clusterSize: nat) {
    if kept then Does(c, res, s, s') else Breaks(c, res, s, s', clusterSize)
  }

  lemma WriteIsDone(path: seq<byte>, data: seq<byte>, res: int, kept: bool, s: Snapshot, s': Snapshot, clusterSize: nat)
    requires Small(s.here) && s'.here == s.here && clusterSize > 0
    requires match Aim(Write(path, data), s)
             case NoTarget(code) => kept && s'.img == s.img && s'.tree == s.tree && res != OK && (res != ERR_IO ==> res == code)
             case Target(d, n) =>
               && res in {OK, ERR_ALREADY_EXISTS, ERR_DIR_FULL, ERR_NO_FREE_CLUSTER, ERR_IO}
               && WriteEffect(res, kept, s.img, s.tree, s'.img, s'.tree, d, n, data, ClustersNeeded(|data|, clusterSize))
    ensures Done(Write(path, data), res, kept, s, s', clusterSize)
    ensures kept || res == ERR_IO
  {
    hide Resolve, FolderAt, AttrAt, Entry, SlotsOf, Lengthened, WriteOutcome, SameFiles, ElsewhereSame, DirFull, FileChanged,
         ClustersNeeded;
    SameFilesRefl(s.img, s.tree);
  }

  lemma MakeIsDone(path: seq<byte>, res: int, kept: bool, s: Snapshot, s': Snapshot, h: nat, clusterSize: nat)
    requires Small(s.here) && s'.here == s.here
    requires match Aim(MakeDirectory(path), s)
             case NoTarget(code) => kept && s'.img == s.img && s'.tree == s.tree && res != OK && (res != ERR_IO ==> res == code)
             case Target(d, n) =>
               && res in {OK, ERR_ALREADY_EXISTS, ERR_DIR_FULL, ERR_NO_FREE_CLUSTER, ERR_IO} && (d == 0 ==> kept)
               && MakeEffect(res, kept, s.img, s.tree, s'.img, s'.tree, d, n, h, 1)
    ensures Done(MakeDirectory(path), res, kept, s, s', clusterSize)
  {
    hide Resolve, FolderAt, AttrAt, Entry, SlotsOf, Lengthened, StoreOutcome, SameFiles, ElsewhereSame, DirFull, FolderChanged, Overwritten;
    SameFilesRefl(s.img, s.tree);
    var aim := Aim(MakeDirectory(path), s);
    if aim.Target? && res == OK && kept { FolderIsThere(s.img, s.tree, s'.img, s'.tree, aim.dir, aim.name, h); }
  }

  lemma DeleteIsDone(path: seq<byte>, res: int, kept: bool, s: Snapshot, s': Snapshot, clusterSize: nat)
    requires Small(s.here) && s'.here == s.here
    requires var aim := Aim(Delete(path), s);
             && (aim.NoTarget? ==> kept && s'.img == s.img && s'.tree == s.tree && res != OK)
             && (kept || (res == ERR_IO && aim.Target? && aim.dir != 0
                          && Undeleted(s.img, s.tree, s'.img, s'.tree, clusterSize, aim.dir, aim.name)))
             && (res == OK ==> aim.Target? && FileAt(s.img, s.tree, aim.dir, aim.name).Some?
                               && FileChanged(s.img, s.tree, s'.img, s'.tree, aim.dir, aim.name, None))
             && (res != OK && kept ==> s'.img == s.img && s'.tree == s.tree)
             && (res != ERR_IO ==> res == match aim
                                          case NoTarget(code) => code
                                          case Target(d, n) => DeleteOutcome(s.img, s.tree, d, n))
    ensures Done(Delete(path), res, kept, s, s', clusterSize)
  {
    hide Resolve, FileAt, FolderAt, AttrAt, Entry, SlotsOf, Lengthened, DeleteOutcome, ElsewhereSame, FileChanged;
  }

  lemma FolderIsThere(img: Image, t: Tree, img': Image, t': Tree, d: nat, n: ShortName, h: nat)
    requires FolderChanged(img, t, img', t', d, n, h)
    ensures FolderAt(img', t', d, n) == Some(h)
  {
  }

  method ExecuteWrite(driver: Fat12Driver, path: seq<byte>, data: seq<byte>) returns (res: int, kept: bool)
    requires (driver.Ready() || driver.Steady()) && |data| < TWO32
    modifies driver.fs.dev, driver.fs.table`dirty, driver.fs.table.bytes, driver.fs.buffer, driver.fs.root,
             driver.fs`rootDirty, driver.fs`mirrored, driver.fs`tree
    ensures driver.fs.Mounted() && driver.fs.dev.clock >= old(driver.fs.dev.clock) && (old(driver.Steady()) ==> driver.Steady())
    ensures old(driver.fs.mirrored) ==> driver.fs.mirrored
    ensures old(driver.fs.Mounted())
    ensures old(driver.Ready()) ==> Done(Write(path, data), res, kept, old(Now(driver)), Now(driver), driver.fs.geo.clusterSize)
    ensures old(driver.Ready()) && kept ==> driver.Ready()
    ensures old(driver.Ready()) && driver.fs.dev.FineSince(old(driver.fs.dev.clock)) ==>
              kept && (res == OK ==> Now(driver).clean) && res == Expected(Write(path, data), old(Now(driver)), driver.fs.geo.clusterSize)
  {
    hide WellFormed, PositionOk, Resolve, CwdText, FileSystem.View, FileSystem.Synced, FileAt, FolderAt, AttrAt, Entry, FileSystem.Sturdy,
         FileSystem.Buffers, SlotsOf, Lengthened, WriteOutcome, MakeOutcome, DeleteOutcome, StoreOutcome, SameFiles, ElsewhereSame,
         Overwritten, Undeleted, DirFull, FileChanged, FolderChanged, ChangeDirectory, ClustersNeeded, WriteEffect, MakeEffect, Done;
    driver.ReadyParts();
    ghost var target;
    res, kept, target := driver.WriteFile(path, data);
    if old(driver.Ready()) {
      WriteIsDone(path, data, res, kept, old(Now(driver)), Now(driver), driver.fs.geo.clusterSize);
    }
  }

  method ExecuteMake(driver: Fat12Driver, path: seq<byte>) returns (res: int, kept: bool)
    requires driver.Ready() || driver.Steady()
    modifies driver.fs.dev, driver.fs.table`dirty, driver.fs.table.bytes, driver.fs.buffer, driver.fs.root,
             driver.fs`rootDirty, driver.fs`mirrored, driver.fs`tree
    ensures driver.fs.Mounted() && driver.fs.dev.clock >= old(driver.fs.dev.clock) && (old(driver.Steady()) ==> driver.Steady())
    ensures old(driver.fs.mirrored) ==> driver.fs.mirrored
    ensures old(driver.fs.Mounted())
    ensures old(driver.Ready()) ==> Done(MakeDirectory(path), res, kept, old(Now(driver)), Now(driver), driver.fs.geo.clusterSize)
    ensures old(driver.Ready()) && kept ==> driver.Ready()
    ensures old(driver.Ready()) && driver.fs.dev.FineSince(old(driver.fs.dev.clock)) ==>
              kept && (res == OK ==> Now(driver).clean) && res == Expected(MakeDirectory(path), old(Now(driver)), driver.fs.geo.clusterSize)
  {
    hide WellFormed, PositionOk, Resolve, CwdText, FileSystem.View, FileSystem.Synced, FileAt, FolderAt, AttrAt, Entry, FileSystem.Sturdy,
         FileSystem.Buffers, SlotsOf, Lengthened, WriteOutcome, MakeOutcome, DeleteOutcome, StoreOutcome, SameFiles, ElsewhereSame,
         Overwritten, Undeleted, DirFull, FileChanged, FolderChanged, ChangeDirectory, ClustersNeeded, WriteEffect, MakeEffect, Done;
    driver.ReadyParts();
    var h;
    ghost var target;
    res, kept, h, target := driver.CreateDirectory(path);
    if old(driver.Ready()) {
      MakeIsDone(path, res, kept, old(Now(driver)), Now(driver), h, driver.fs.geo.clusterSize);
    }
  }

  method ExecuteDelete(driver: Fat12Driver, path: seq<byte>) returns (res: int, kept: bool)
    requires driver.Ready() || driver.Steady()
    modifies driver.fs.dev, driver.fs.table`dirty, driver.fs.table.bytes, driver.fs.buffer, driver.fs.root,
             driver.fs`rootDirty, driver.fs`mirrored, driver.fs`tree
    ensures driver.fs.Mounted() && driver.fs.dev.clock >= old(driver.fs.dev.clock) && (old(driver.Steady()) ==> driver.Steady())
    ensures old(driver.fs.mirrored) ==> driver.fs.mirrored
    ensures old(driver.fs.Mounted())
    ensures old(driver.Ready()) ==> Done(Delete(path), res, kept, old(Now(driver)), Now(driver), driver.fs.geo.clusterSize)
    ensures old(driver.Ready()) && kept ==> driver.Ready()
    ensures old(driver.Ready()) && driver.fs.dev.FineSince(old(driver.fs.dev.clock)) ==>
              kept && (res == OK ==> Now(driver).clean) && res == Expected(Delete(path), old(Now(driver)), driver.fs.geo.clusterSize)
  {
    hide WellFormed, PositionOk, Resolve, CwdText, FileSystem.View, FileSystem.Synced, FileAt, FolderAt, AttrAt, Entry, FileSystem.Sturdy,
         FileSystem.Buffers, SlotsOf, Lengthened, WriteOutcome, MakeOutcome, DeleteOutcome, StoreOutcome, SameFiles, ElsewhereSame,
         Overwritten, Undeleted, DirFull, FileChanged, FolderChanged, ChangeDirectory, ClustersNeeded, WriteEffect, MakeEffect, Done;
    driver.ReadyParts();
    ghost var target;
    res, kept, target := driver.DeleteFile(path);
    if old(driver.Ready()) {
      DeleteIsDone(path, res, kept, old(Now(driver)), Now(driver), driver.fs.geo.clusterSize);
    }
  }

  /** One command. On a damaged volume it still keeps the caches and the disk in agreement, as long as no walk through the
      table goes in circles. */
  method Execute(driver: Fat12Driver, c: Command) returns (res: int, kept: bool)
    requires (driver.Ready() || driver.Steady()) && (c.Write? ==> |c.data| < TWO32)
    modifies driver, driver.fs.dev, driver.fs.table`dirty, driver.fs.table.bytes, driver.fs.buffer, driver.fs.root,
             driver.fs`rootDirty, driver.fs`mirrored, driver.fs`tree
    ensures driver.fs.Mounted() && driver.fs.dev.clock >= old(driver.fs.dev.clock) && (old(driver.Steady()) ==> driver.Steady())
    ensures old(driver.fs.mirrored) ==> driver.fs.mirrored
    ensures old(driver.fs.Mounted())
    ensures old(driver.Ready()) ==> Done(c, res, kept, old(Now(driver)), Now(driver), driver.fs.geo.clusterSize)
    ensures old(driver.Ready()) && kept ==> driver.Ready()
    ensures old(driver.Ready()) && driver.fs.dev.FineSince(old(driver.fs.dev.clock)) ==>
              kept && (res == OK && !c.Change? ==> Now(driver).clean) && res == Expected(c, old(Now(driver)), driver.fs.geo.clusterSize)
  {
    hide WellFormed, PositionOk, FileSystem.View, FileSystem.Synced, FileSystem.Sturdy, FileSystem.Buffers, Aim, SameFiles,
         FileChanged, FileAt, FolderAt, AttrAt;
    kept := true;
    driver.ReadyParts();
    match c {
      case Write(path, data) => res, kept := ExecuteWrite(driver, path, data);
      case MakeDirectory(path) => res, kept := ExecuteMake(driver, path);
      case Delete(path) => res, kept := ExecuteDelete(driver, path);
      case Change(path) => res := driver.ChangeDirectoryTo(path);
      case Sync => res := driver.fs.Flush();
    }
  }

  lemma ReadyIsSteady(driver: Fat12Driver)
    requires driver.Ready() && driver.fs.Sturdy()
    ensures driver.Steady()
  {
    driver.ReadyParts();
  }

  lemma FineParts(dev: AtaDevice, k: nat, l: nat)
    requires k <= l <= dev.clock
    ensures dev.FineSince(k) ==> dev.FineBetween(k, l) && dev.FineSince(l)
  {
  }

  /** Every copy of the table on the disk is the cached one. */
  ghost predicate AllCopiesAgree(fs: FileSystem)
    reads fs, fs.table, fs.table.bytes, fs.root, fs.dev`medium
  {
    fs.Mounted() && forall k | 0 <= k < fs.geo.numFats :: FatCopy(fs.geo, fs.dev.medium, k) == fs.table.bytes[..fs.geo.fatSize]
  }

  lemma MirroredAgree(fs: FileSystem)
    requires fs.Mounted() && fs.mirrored && !fs.table.dirty
    ensures AllCopiesAgree(fs)
  {
  }

  /** A command during which the disk did not fail gave the result that the state before it determines. */
  ghost predicate Exact(dev: AtaDevice, c: Command, res: int, s: Snapshot, s': Snapshot, clusterSize: nat)
  {
    dev.FineBetween(s.clock, s'.clock) ==> res == Expected(c, s, clusterSize) && (res == OK && !c.Change? ==> s'.clean)
  }

  /** The commands so far: `trace` ends before the first one that damaged the volume, and `after` is what that one left. */
  ghost predicate Ran(dev: AtaDevice, commands: seq<Command>, results: seq<int>, trace: seq<Snapshot>, after: Snapshot, whole: bool,
                      clusterSize: nat)
  {
    && IsHistory(commands, results, trace)
    && (if whole then |trace| == |results| + 1
        else |trace| <= |results| && Breaks(commands[|trace| - 1], results[|trace| - 1], trace[|trace| - 1], after, clusterSize))
    && forall i | 0 <= i < |trace| - 1 :: Exact(dev, commands[i], results[i], trace[i], trace[i + 1], clusterSize)
  }

  lemma RanFurther(dev: AtaDevice, commands: seq<Command>, results: seq<int>, trace: seq<Snapshot>, after: Snapshot, whole: bool,
                   clusterSize: nat, res: int, kept: bool, now: Snapshot)
    requires Ran(dev, commands, results, trace, after, whole, clusterSize) && |results| < |commands|
    requires var k := |results|;
             whole ==> Done(commands[k], res, kept, trace[k], now, clusterSize) && Exact(dev, commands[k], res, trace[k], now, clusterSize)
    ensures Ran(dev, commands, results + [res], if whole && kept then trace + [now] else trace, if whole && !kept then now else after,
                whole && kept, clusterSize)
  {
    hide Does, Breaks, Exact;
    var results' := results + [res];
    assert forall i | 0 <= i < |results| :: results'[i] == results[i];
    if whole && kept {
      var trace' := trace + [now];
      assert forall i | 0 <= i < |trace| :: trace'[i] == trace[i];
    }
  }

  lemma RanNothing(dev: AtaDevice, commands: seq<Command>, now: Snapshot, clusterSize: nat)
    ensures Ran(dev, commands, [], [now], now, true, clusterSize)
  {
  }

  /** A run. `onward` says whether it goes on after a command has damaged the volume, which a table without circles allows;
      `after` is the state that the first such command leaves. Whatever the disk does, the caches and the disk agree at the
      end, in every copy of the table if the copies agreed at the start. As long as no command has damaged the volume, it is a
      file system, and every command did what its result says; a command during which the disk does not fail gives the result
      that the state before it determines. */
  method Run(driver: Fat12Driver, commands: seq<Command>, onward: bool)
    returns (results: seq<int>, ghost trace: seq<Snapshot>, ghost after: Snapshot)
    requires driver.Ready() && forall i | 0 <= i < |commands| :: commands[i].Write? ==> |commands[i].data| < TWO32
    requires onward ==> driver.fs.Sturdy()
    modifies driver, driver.fs.dev, driver.fs.table`dirty, driver.fs.table.bytes, driver.fs.buffer, driver.fs.root,
             driver.fs`rootDirty, driver.fs`mirrored, driver.fs`tree
    ensures driver.fs.Mounted() && (old(driver.fs.mirrored) && !driver.fs.table.dirty ==> AllCopiesAgree(driver.fs))
    ensures Ran(driver.fs.dev, commands, results, trace, after, |trace| == |results| + 1, driver.fs.geo.clusterSize)
    ensures old(driver.fs.Mounted()) && trace[0] == old(Now(driver))
    ensures |trace| == |results| + 1 ==> driver.Ready() && trace[|results|] == Now(driver)
    ensures |results| < |commands| ==> !onward && |trace| == |results| && after == Now(driver)
    ensures driver.fs.dev.FineSince(old(driver.fs.dev.clock)) ==> |trace| == |results| + 1 == |commands| + 1
  {
    hide WellFormed, PositionOk, CwdText, FileSystem.View, FileSystem.Synced, FileSystem.Sturdy, Does, Breaks, Expected,
         AtaDevice.FineBetween, Ran, Done, FileSystem.Buffers;
    driver.ReadyParts();
    results, trace, after := [], [Now(driver)], Now(driver);
    ghost var whole := true;
    var going := true;
    RanNothing(driver.fs.dev, commands, Now(driver), driver.fs.geo.clusterSize);
    if onward { ReadyIsSteady(driver); }
    while going && |results| < |commands|
      invariant driver.fs.Mounted() && Ran(driver.fs.dev, commands, results, trace, after, whole, driver.fs.geo.clusterSize)
      invariant |results| <= |commands| && |trace| > 0 && trace[0] == old(Now(driver))
      invariant (onward ==> driver.Steady()) && (whole ==> driver.Ready() && |trace| == |results| + 1 && trace[|results|] == Now(driver))
      invariant going == (whole || onward) && (!whole ==> |trace| <= |results|)
      invariant !going ==> |trace| == |results| && after == Now(driver)
      invariant driver.fs.dev.clock >= old(driver.fs.dev.clock) && (old(driver.fs.mirrored) ==> driver.fs.mirrored)
      invariant driver.fs.dev.FineSince(old(driver.fs.dev.clock)) ==> whole
      decreases |commands| - |results|
    {
      ghost var start := driver.fs.dev.clock;
      var c := commands[|results|];
      var res, kept := Execute(driver, c);
      FineParts(driver.fs.dev, old(driver.fs.dev.clock), start);
      RanFurther(driver.fs.dev, commands, results, trace, after, whole, driver.fs.geo.clusterSize, res, kept, Now(driver));
      results := results + [res];
      if whole {
        if kept { trace := trace + [Now(driver)]; } else { after := Now(driver); }
        whole := kept;
      }
      going := kept || onward;
    }
    if driver.fs.mirrored && !driver.fs.table.dirty { MirroredAgree(driver.fs); }
  }

  /** A run of commands that only name entries of the root directory cannot damage the volume, whatever the disk does. */
  lemma RootRunsStayWhole(commands: seq<Command>, results: seq<int>, trace: seq<Snapshot>, after: Snapshot, clusterSize: nat)
    requires IsHistory(commands, results, trace)
    requires |trace| <= |results| ==> Breaks(commands[|trace| - 1], results[|trace| - 1], trace[|trace| - 1], after, clusterSize)
    requires forall i | 0 <= i < |trace| && i < |commands| ::
               Aim(commands[i], trace[i]).Target? ==> Aim(commands[i], trace[i]).dir == 0
    ensures |trace| == |results| + 1
  {
    var k := |trace| - 1;
    assert k < |commands| ==> (Aim(commands[k], trace[k]).Target? ==> Aim(commands[k], trace[k]).dir == 0);
  }
}
