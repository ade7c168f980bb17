/** The driver's interface: operations on paths, relative to a current directory. */
module Driver {
  import opened Bytes
  import opened Disk
  import opened Geometry
  import opened Chains
  import opened Directories
  import opened ShortNames
  import opened Volumes
  import opened EntrySteps
  import opened Space
  import opened Listings
  import opened Outcomes
  import opened Paths
  import opened Fat12

  lemma WalkAdvance(img: Image, a: Allocation, start: Position, done: seq<seq<byte>>, pos: Position, c: seq<byte>)
    requires |start.names| == |start.stack| && |pos.names| == |pos.stack| && WalkFrom(img, a, start, done) == At(pos)
    ensures WalkFrom(img, a, start, done + [c]) == Step(img, a, pos, c)
  {
    WalkJoin(img, a, start, done, [c]);
    WalkOne(img, a, pos, c);
  }

  lemma WalkStuck(img: Image, a: Allocation, start: Position, done: seq<seq<byte>>, c: seq<byte>, rest: seq<seq<byte>>, code: int)
    requires |start.names| == |start.stack| && WalkFrom(img, a, start, done + [c]) == Stuck(code)
    ensures WalkFrom(img, a, start, done + [c] + rest) == Stuck(code)
  {
    WalkJoin(img, a, start, done + [c], rest);
  }

  /** fat12_path_next: the component at `cursor`, and the position after it; an empty component at the end. */
  method PathNext(path: seq<byte>, cursor: nat) returns (component: seq<byte>, next: nat)
    requires cursor <= |path|
    ensures cursor <= next <= |path|
    ensures Components(path[cursor..]) == if component == [] then [] else [component] + Components(path[next..])
    ensures component == [] ==> next == |path|
    ensures component != [] ==> next > cursor
  {
    hide Components;
    var ptr := cursor;
    while ptr < |path| && IsSeparator(path[ptr])
      invariant cursor <= ptr <= |path|
      invariant forall i | cursor <= i < ptr :: IsSeparator(path[i])
    {
      ptr := ptr + 1;
    }
    if ptr == |path| {
      SeparatorsOnly(path[cursor..]);
      return [], ptr;
    }
    component, next := TakeToken(path, ptr);
    ComponentsFirst(path[cursor..], ptr - cursor, next - ptr);
    assert path[cursor..][ptr - cursor..next - cursor] == path[ptr..next] && path[cursor..][next - cursor..] == path[next..];
  }

  /** The copying loop of fat12_path_next: at most 31 characters, up to the next separator. */
  method TakeToken(path: seq<byte>, from: nat) returns (component: seq<byte>, ptr: nat)
    requires from < |path| && !IsSeparator(path[from])
    ensures from < ptr <= |path| && component == Cut(path[from..ptr]) && component != []
    ensures forall i | from <= i < ptr :: !IsSeparator(path[i])
    ensures ptr < |path| ==> IsSeparator(path[ptr])
  {
    ptr, component := from, [];
    while ptr < |path| && !IsSeparator(path[ptr])
      invariant from <= ptr <= |path| && component == Cut(path[from..ptr])
      invariant forall i | from <= i < ptr :: !IsSeparator(path[i])
    {
      assert path[from..ptr + 1] == path[from..ptr] + [path[ptr]];
      if |component| < MAX_COMPONENT { component := component + [path[ptr]]; }
      ptr := ptr + 1;
    }
  }

  /** The loop `while (*cursor == '/' || *cursor == '\\') cursor++`. */
  method SkipSeparators(path: seq<byte>, cursor: nat) returns (next: nat)
    requires cursor <= |path|
    ensures cursor <= next <= |path| && Components(path[next..]) == Components(path[cursor..])
    ensures next == |path| <==> Components(path[cursor..]) == []
  {
    next := cursor;
    while next < |path| && IsSeparator(path[next])
      invariant cursor <= next <= |path|
      invariant forall i | cursor <= i < next :: IsSeparator(path[i])
    {
      next := next + 1;
    }
    assert next < |path| ==> !IsSeparator(path[next]);
    LeadingSeparatorsIs(path[cursor..], next - cursor);
    ComponentsAfterSeparators(path[cursor..], next - cursor);
    assert path[cursor..][next - cursor..] == path[next..];
  }

  /** A component and the separators behind it. */
  method TakeComponent(path: seq<byte>, cursor: nat, ghost done: seq<seq<byte>>) returns (component: seq<byte>, next: nat)
    requires cursor <= |path| && Components(path) == done + Components(path[cursor..])
    ensures cursor <= next <= |path|
    ensures component == [] ==> Components(path[cursor..]) == []
    ensures component != [] ==> next > cursor && Components(path) == done + [component] + Components(path[next..])
    ensures component != [] ==> (next == |path| <==> Components(path[next..]) == [])
    ensures component != [] && next == |path| ==> Components(path) == done + [component]
  {
    hide Components;
    component, next := PathNext(path, cursor);
    if component == [] { return; }
    next := SkipSeparators(path, next);
    assert done + ([component] + Components(path[next..])) == done + [component] + Components(path[next..]);
    assert done + [component] + [] == done + [component];
  }

  /** Cluster numbers that fit the uint16_t they are kept in, and a name for each level. */
  ghost predicate Small(pos: Position) {
    && pos.cluster < TWO16 && |pos.names| == |pos.stack|
    && forall i | 0 <= i < |pos.stack| :: pos.stack[i] < TWO16
  }

  /** The walk along every component but the last. */
  ghost predicate ReachesLast(img: Image, a: Allocation, here: Position, path: seq<byte>, pos: Position, last: seq<byte>)
    requires |here.names| == |here.stack|
  {
    var c := Components(path);
    c != [] && c[|c| - 1] == last && WalkFrom(img, a, Start(here, path), c[..|c| - 1]) == At(pos)
  }

  ghost predicate StuckBeforeLast(img: Image, a: Allocation, here: Position, path: seq<byte>, code: int)
    requires |here.names| == |here.stack|
  {
    var c := Components(path);
    c != [] && WalkFrom(img, a, Start(here, path), c[..|c| - 1]) == Stuck(code)
  }

  lemma LastReached(img: Image, a: Allocation, here: Position, path: seq<byte>, done: seq<seq<byte>>, pos: Position, last: seq<byte>)
    requires |here.names| == |here.stack| && Components(path) == done + [last]
    requires WalkFrom(img, a, Start(here, path), done) == At(pos)
    ensures ReachesLast(img, a, here, path, pos, last)
  {
    assert (done + [last])[..|done|] == done;
  }

  lemma LastNotReached(img: Image, a: Allocation, here: Position, path: seq<byte>, done: seq<seq<byte>>, c: seq<byte>,
                       rest: seq<seq<byte>>, code: int)
    requires |here.names| == |here.stack| && Components(path) == done + [c] + rest && rest != []
    requires WalkFrom(img, a, Start(here, path), done + [c] + rest[..|rest| - 1]) == Stuck(code)
    ensures StuckBeforeLast(img, a, here, path, code)
  {
    hide Components;
    var all := done + [c] + rest;
    assert all[..|all| - 1] == done + [c] + rest[..|rest| - 1];
  }

  lemma LevelIsDir(img: Image, t: Tree, cs: nat, pos: Position, i: nat)
    requires WellFormed(img, t, cs, {}) && PositionOk(img, t, pos) && i < |pos.stack|
    ensures IsDir(t, pos.stack[i])
  {
    assert LevelOk(img, t, pos, i);
    FoldersAreDirs(img, t, cs, if i == 0 then 0 else pos.stack[i - 1], Encode(pos.names[i]).value);
  }

  class Fat12Driver {
    const fs: FileSystem
    /** g_current_dir_cluster, and the first g_path_depth entries of g_path_stack and g_path_names. */
    var current: nat
    var stack: seq<nat>
    var names: seq<seq<byte>>
    /** g_cwd. */
    var cwd: seq<byte>

    function Here(): Position
      reads `current, `stack, `names
    {
      Position(current, stack, names)
    }

    /** A mounted file system, and a place in it that is where its stack says. */
    ghost predicate Standing(pos: Position)
      reads this, fs, fs.table, fs.table.bytes, fs.root, fs.dev`medium
    {
      fs.Whole({}) && PositionOk(fs.View(), fs.tree, pos)
    }

    /** A mounted file system, a current directory that is where its stack says, and its text. */
    ghost predicate Ready()
      reads this, fs, fs.table, fs.table.bytes, fs.root, fs.dev`medium
    {
      Standing(Here()) && cwd == CwdText(names)
    }

    /** A mounted volume that may be damaged, but whose table sends no walk in circles: what keeps every call going. */
    ghost predicate Steady()
      reads this, fs, fs.table, fs.table.bytes, fs.root, fs.dev`medium
    {
      fs.Mounted() && fs.Sturdy() && Small(Here()) && cwd == CwdText(names)
    }

    constructor (fs: FileSystem)
      ensures this.fs == fs && Here() == TheRoot && cwd == [SLASH]
    {
      this.fs := fs;
      current, stack, names, cwd := 0, [], [], [SLASH];
    }

    lemma StandingParts(pos: Position)
      requires Standing(pos)
      ensures fs.Mounted() && Small(pos) && fs.Intact({}, pos.cluster)
    {
      hide FileSystem.View, WellFormed;
      PositionSizes(fs.View(), fs.tree, pos);
      fs.IntactParts({}, pos.cluster);
      forall i | 0 <= i < |pos.stack| ensures pos.stack[i] < TWO16 {
        LevelIsDir(fs.View(), fs.tree, fs.geo.clusterSize, pos, i);
        fs.IntactParts({}, pos.stack[i]);
      }
    }

    lemma ReadyParts()
      requires Ready() || Steady()
      ensures fs.Mounted() && Small(Here()) && (Ready() ==> fs.Intact({}, current))
    {
      if Ready() { StandingParts(Here()); }
    }

    /** A driver that has just been mounted is ready. */
    lemma FreshIsReady()
      requires fs.Whole({}) && Here() == TheRoot && cwd == [SLASH]
      ensures Ready()
    {
      RootPositionOk(fs.View(), fs.tree);
    }

    // ---------------------------------------------------------------- walking

    /** One named step of a walk: the 8.3 name, the lookup, and the test for a directory. */
    method Enter(cluster: nat, component: seq<byte>) returns (res: int, entry: Slot)
      requires fs.Mounted() && (fs.Intact({}, cluster) || fs.Sturdy())
      modifies fs.dev`clock, fs.buffer
      ensures fs.Mounted() && fs.View() == old(fs.View()) && fs.dev.clock >= old(fs.dev.clock)
      ensures res == ERR_IO ==> !fs.dev.FineSince(old(fs.dev.clock))
      ensures old(fs.Intact({}, cluster)) && res == OK ==>
                Encode(component).Some? && IsDirectory(entry)
                && Entry(fs.View(), fs.tree.alloc, cluster, Encode(component).value) == Some(entry)
      ensures old(fs.Intact({}, cluster)) && res != OK && res != ERR_IO ==>
                res == (if Encode(component).None? then WALK_INVALID_NAME
                        else if Entry(fs.View(), fs.tree.alloc, cluster, Encode(component).value).None? then WALK_NOT_FOUND
                        else WALK_NOT_DIRECTORY)
                && (Encode(component).Some? && Entry(fs.View(), fs.tree.alloc, cluster, Encode(component).value).Some? ==>
                      !IsDirectory(Entry(fs.View(), fs.tree.alloc, cluster, Encode(component).value).value))
    {
      hide Encode, Entry, IsDirectory, WellFormed, FileSystem.View, FileSystem.Synced, FileSystem.Sturdy, Scannable;
      if fs.Intact({}, cluster) { fs.IntactParts({}, cluster); }
      entry := Zeros(SLOT_SIZE);
      var name := MakeShortName(component);
      if name == None { return ERR_INVALID_NAME, entry; }
      var oc, idx;
      ghost var i, j;
      res, entry, oc, idx, i, j := fs.FindEntry(cluster, name.value);
      if res != OK { return; }
      if !IsDirectory(entry) { return ERR_NOT_DIRECTORY, entry; }
    }

    /** One round of the loops of the three path walkers; the caller's `names` are only tracked by fat12_change_directory. */
    method WalkStep(pos: Position, component: seq<byte>) returns (res: int, next: Position)
      requires fs.Mounted() && (Standing(pos) || fs.Sturdy()) && Small(pos) && component != []
      modifies fs.dev`clock, fs.buffer
      ensures fs.Mounted() && fs.View() == old(fs.View()) && fs.dev.clock >= old(fs.dev.clock) && Small(next)
      ensures res == ERR_IO ==> !fs.dev.FineSince(old(fs.dev.clock))
      ensures old(Standing(pos)) && res == OK ==>
                Step(fs.View(), fs.tree.alloc, pos, component) == At(next) && Standing(next)
      ensures old(Standing(pos)) && res != OK && res != ERR_IO ==> Step(fs.View(), fs.tree.alloc, pos, component) == Stuck(res)
    {
      hide Encode, SlotsOf, IsDirectory, WellFormed, FirstCluster, PositionOk, Display, Name, FileSystem.View,
           FileSystem.Synced, FileSystem.Sturdy;
      ghost var img, stands := fs.View(), Standing(pos);
      next := pos;
      if stands { StandingParts(pos); }
      if component == [DOT] { return OK, pos; }
      if component == [DOT, DOT] {
        if |pos.stack| > 0 {
          var stack := pos.stack[..|pos.stack| - 1];
          next := Position(if |stack| == 0 then 0 else stack[|stack| - 1], stack, pos.names[..|pos.names| - 1]);
        } else {
          next := TheRoot;
        }
        if stands { StepKeepsPosition(img, fs.tree, fs.geo.clusterSize, pos, component); }
        return OK, next;
      }
      var entry;
      res, entry := Enter(pos.cluster, component);
      if res != OK { return; }
      var shown := DirNameToString(Name(entry));
      if |pos.stack| < MAX_DEPTH {
        next := Position(FirstCluster(entry), pos.stack + [FirstCluster(entry)], pos.names + [shown]);
      } else {
        next := Position(FirstCluster(entry), pos.stack, pos.names);
      }
      if stands { StepKeepsPosition(img, fs.tree, fs.geo.clusterSize, pos, component); }
    }

    /** fat12_change_directory. */
    method ChangeDirectoryTo(path: seq<byte>) returns (res: int)
      requires fs.Buffers() && (fs.ready ==> Ready() || Steady())
      modifies this, fs.dev`clock, fs.buffer
      ensures fs.dev.clock >= old(fs.dev.clock)
      ensures !fs.ready ==> res == ERR_NOT_INITIALIZED
      ensures fs.ready ==> fs.Mounted() && fs.View() == old(fs.View()) && Small(old(Here())) && |names| == |stack|
      ensures (old(Ready()) ==> Ready()) && (old(Steady()) ==> Steady())
      ensures res != OK ==> Here() == old(Here()) && cwd == old(cwd)
      ensures old(Ready()) && res == OK ==> ChangeDirectory(fs.View(), fs.tree.alloc, old(Here()), path) == At(Here())
      ensures old(Ready()) && res != OK && res != ERR_IO ==>
                ChangeDirectory(fs.View(), fs.tree.alloc, old(Here()), path) == Stuck(res)
      ensures res == ERR_IO ==> !fs.dev.FineSince(old(fs.dev.clock))
    {
      hide WellFormed, PositionOk, Step, WalkFrom, Components, Entry, CwdText, FileSystem.View, FileSystem.Synced,
           FileSystem.Buffers, FileSystem.Sturdy;
      if !fs.ready { return ERR_NOT_INITIALIZED; }
      ReadyParts();
      fs.Apart();
      if path == [] { return OK; }
      var pos: Position;
      res, pos := WalkPath(path);
      if res != OK { return; }
      current, stack, names := pos.cluster, pos.stack, pos.names;
      RebuildCwd();
    }

    /** The loop shared by fat12_change_directory and fat12_locate_directory. */
    method WalkPath(path: seq<byte>) returns (res: int, pos: Position)
      requires (Ready() || Steady()) && path != []
      modifies fs.dev`clock, fs.buffer
      ensures fs.Mounted() && fs.View() == old(fs.View()) && fs.dev.clock >= old(fs.dev.clock)
      ensures Small(Here()) && Small(pos)
      ensures old(Ready()) && res == OK ==>
                ChangeDirectory(fs.View(), fs.tree.alloc, Here(), path) == At(pos) && Standing(pos)
      ensures old(Ready()) && res != OK && res != ERR_IO ==> ChangeDirectory(fs.View(), fs.tree.alloc, Here(), path) == Stuck(res)
      ensures res == ERR_IO ==> !fs.dev.FineSince(old(fs.dev.clock))
    {
      hide WellFormed, PositionOk, Step, WalkFrom, Components, Entry, CwdText, FileSystem.View, FileSystem.Synced,
           FileSystem.Sturdy;
      ReadyParts();
      ghost var img, a, sound := fs.View(), fs.tree.alloc, Ready();
      RootPositionOk(img, fs.tree);
      pos := if IsSeparator(path[0]) then TheRoot else Here();
      ghost var start, done := pos, [];
      var cursor := 0;
      EmptyWalk(img, a, start);
      assert path[0..] == path && done + Components(path) == Components(path);
      while true
        invariant cursor <= |path| && fs.Mounted() && fs.View() == img && fs.dev.clock >= old(fs.dev.clock)
        invariant Small(pos) && (sound ==> Standing(pos))
        invariant sound ==> WalkFrom(img, a, start, done) == At(pos)
        invariant Components(path) == done + Components(path[cursor..])
        decreases |path| - cursor
      {
        var component, next := PathNext(path, cursor);
        if component == [] {
          assert done + [] == done;
          return OK, pos;
        }
        cursor := SkipSeparators(path, next);
        res, pos := WalkAlong(pos, component, start, done, Components(path[cursor..]), sound);
        assert done + ([component] + Components(path[cursor..])) == done + [component] + Components(path[cursor..]);
        if res != OK { return; }
        done := done + [component];
      }
    }

    /** A step, placed in the walk so far. */
    method WalkAlong(pos: Position, component: seq<byte>, ghost start: Position, ghost done: seq<seq<byte>>,
                     ghost rest: seq<seq<byte>>, ghost sound: bool) returns (res: int, next: Position)
      requires fs.Mounted() && (Standing(pos) || fs.Sturdy()) && component != [] && Small(start) && Small(pos)
      requires sound ==> Standing(pos) && WalkFrom(fs.View(), fs.tree.alloc, start, done) == At(pos)
      modifies fs.dev`clock, fs.buffer
      ensures fs.Mounted() && fs.View() == old(fs.View()) && fs.dev.clock >= old(fs.dev.clock) && Small(next)
      ensures res == ERR_IO ==> !fs.dev.FineSince(old(fs.dev.clock))
      ensures sound && res == OK ==> WalkFrom(fs.View(), fs.tree.alloc, start, done + [component]) == At(next) && Standing(next)
      ensures sound && res != OK && res != ERR_IO ==>
                WalkFrom(fs.View(), fs.tree.alloc, start, done + [component] + rest) == Stuck(res)
    {
      hide FileSystem.View, FileSystem.Synced, FileSystem.Sturdy;
      res, next := WalkStep(pos, component);
      if sound {
        WalkAdvance(fs.View(), fs.tree.alloc, start, done, pos, component);
        if res != OK && res != ERR_IO {
          WalkStuck(fs.View(), fs.tree.alloc, start, done, component, rest, res);
        }
      }
    }

    /** fat12_rebuild_cwd; the buffer of 128 bytes is never overrun. */
    method RebuildCwd()
      modifies `cwd
      ensures cwd == CwdText(names)
    {
      var text := new byte[CWD_SIZE];
      text[0] := SLASH;
      var pos := 1;
      assert text[..1] == [SLASH];
      for i := 0 to |names|
        invariant 1 <= pos < CWD_SIZE && Extend(text[..pos], names, i) == CwdText(names)
      {
        var n := |names[i]|;
        if n == 0 { continue; }
        if pos + n + 1 >= CWD_SIZE {
          cwd := text[..pos];
          return;
        }
        ghost var before := text[..pos];
        forall j | 0 <= j < n { text[pos + j] := names[i][j]; }
        pos := pos + n;
        assert text[..pos] == before + names[i];
        if i != |names| - 1 {
          text[pos] := SLASH;
          pos := pos + 1;
          assert text[..pos] == before + names[i] + [SLASH];
        } else {
          assert text[..pos] == before + names[i] + [];
        }
      }
      cwd := text[..pos];
    }

    /** fat12_locate_directory: the same walk, without moving. */
    method LocateDirectory(path: seq<byte>) returns (res: int, cluster: nat)
      requires Ready() || Steady()
      modifies fs.dev`clock, fs.buffer
      ensures fs.Mounted() && fs.View() == old(fs.View()) && fs.dev.clock >= old(fs.dev.clock) && Small(Here())
      ensures old(Ready()) && res == OK ==>
                && ChangeDirectory(fs.View(), fs.tree.alloc, Here(), path).At?
                && ChangeDirectory(fs.View(), fs.tree.alloc, Here(), path).pos.cluster == cluster && fs.Intact({}, cluster)
      ensures old(Ready()) && res != OK && res != ERR_IO ==> ChangeDirectory(fs.View(), fs.tree.alloc, Here(), path) == Stuck(res)
      ensures res == ERR_IO ==> !fs.dev.FineSince(old(fs.dev.clock))
    {
      hide PositionOk, WalkFrom, Entry, FileSystem.View, FileSystem.Synced, FileSystem.Buffers;
      ReadyParts();
      if path == [] { return OK, current; }
      var pos;
      res, pos := WalkPath(path);
      cluster := pos.cluster;
      if res == OK && Standing(pos) { StandingParts(pos); }
    }

    /** fat12_iterate_path. */
    method IteratePath(path: seq<byte>, stop: seq<Info> -> bool) returns (res: int, infos: seq<Info>, ghost names: seq<ShortName>)
      requires fs.Buffers() && (fs.ready ==> Ready() || Steady())
      modifies fs.dev`clock, fs.buffer
      ensures !fs.ready ==> res == ERR_NOT_INITIALIZED
      ensures fs.ready ==> fs.Mounted() && fs.View() == old(fs.View()) && Small(Here())
      ensures (old(Ready()) ==> Ready()) && (old(Steady()) ==> Steady())
      ensures old(Ready()) && res == OK ==>
                var w := ChangeDirectory(fs.View(), fs.tree.alloc, Here(), path);
                && w.At? && Shown(Infos(Listing(SlotsOf(fs.View(), fs.tree.alloc, w.pos.cluster))), stop, infos)
                && AllTell(fs.View(), fs.tree, w.pos.cluster, names, infos)
                && (infos == [] || !stop(infos) ==> AllListed(fs.View(), fs.tree, w.pos.cluster, names))
      ensures old(Ready()) && res != OK && res != ERR_IO ==>
                ChangeDirectory(fs.View(), fs.tree.alloc, Here(), path) == Stuck(res)
      ensures res == ERR_IO ==> !fs.dev.FineSince(old(fs.dev.clock))
    {
      hide WellFormed, AllTell, AllListed, PositionOk, FileSystem.View, SlotsOf, ChangeDirectory, Scannable;
      infos, names := [], [];
      if !fs.ready { return ERR_NOT_INITIALIZED, [], []; }
      ReadyParts();
      var cluster;
      res, cluster := LocateDirectory(path);
      if res != OK { return; }
      if fs.Intact({}, cluster) { fs.IntactParts({}, cluster); }
      res, infos, names := fs.IterateDirectory(cluster, stop);
    }

    /** fat12_resolve_parent_and_name. */
    method ResolveParentAndName(path: seq<byte>) returns (res: int, dir: nat, name: ShortName)
      requires Ready() || Steady()
      modifies fs.dev`clock, fs.buffer
      ensures fs.Mounted() && fs.View() == old(fs.View()) && fs.dev.clock >= old(fs.dev.clock) && Small(Here())
      ensures dir < TWO16 && (res == OK ==> IsValidChar(name[0]))
      ensures old(Ready()) && res == OK ==>
                Resolve(fs.View(), fs.tree.alloc, Here(), path) == Target(dir, name) && fs.Intact({}, dir)
      ensures old(Ready()) && res != OK && res != ERR_IO ==> Resolve(fs.View(), fs.tree.alloc, Here(), path) == NoTarget(res)
      ensures res == ERR_IO ==> !fs.dev.FineSince(old(fs.dev.clock))
    {
      hide WellFormed, PositionOk, Components, Entry, CwdText, FileSystem.View, FileSystem.Synced, Encode,
           FileSystem.Buffers, FileSystem.Sturdy;
      dir, name := 0, seq(11, i => SPACE);
      ReadyParts();
      if path == [] {
        SeparatorsOnly([]);
        return ERR_INVALID_NAME, dir, name;
      }
      var pos, last;
      res, pos, last := WalkToLast(path);
      if res != OK { return; }
      if last == [] { return ERR_INVALID_NAME, dir, name; }
      if last == [DOT] || last == [DOT, DOT] { return ERR_INVALID_NAME, dir, name; }
      var short := MakeShortName(last);
      if short == None { return ERR_INVALID_NAME, dir, name; }
      EncodedFirstByte(last);
      if Standing(pos) { StandingParts(pos); }
      return OK, pos.cluster, short.value;
    }

    /** The loop of fat12_resolve_parent_and_name: every component is walked but the last. */
    method WalkToLast(path: seq<byte>) returns (res: int, pos: Position, last: seq<byte>)
      requires (Ready() || Steady()) && path != []
      modifies fs.dev`clock, fs.buffer
      ensures fs.Mounted() && fs.View() == old(fs.View()) && fs.dev.clock >= old(fs.dev.clock) && Small(Here()) && Small(pos)
      ensures res == ERR_IO ==> !fs.dev.FineSince(old(fs.dev.clock))
      ensures res == OK && last == [] ==> Components(path) == []
      ensures old(Ready()) && res == OK && last != [] ==>
                Standing(pos) && ReachesLast(fs.View(), fs.tree.alloc, Here(), path, pos, last)
      ensures old(Ready()) && res != OK && res != ERR_IO ==> StuckBeforeLast(fs.View(), fs.tree.alloc, Here(), path, res)
    {
      hide WellFormed, PositionOk, Step, WalkFrom, Components, Entry, CwdText, FileSystem.View, FileSystem.Synced,
           FileSystem.Sturdy, ReachesLast, StuckBeforeLast;
      ReadyParts();
      ghost var img, a, sound := fs.View(), fs.tree.alloc, Ready();
      RootPositionOk(img, fs.tree);
      pos := if IsSeparator(path[0]) then TheRoot else Here();
      ghost var start, done := pos, [];
      var cursor := 0;
      last := [];
      EmptyWalk(img, a, start);
      assert path[0..] == path && done + Components(path) == Components(path);
      while true
        invariant cursor <= |path| && fs.Mounted() && fs.View() == img && fs.dev.clock >= old(fs.dev.clock)
        invariant Small(pos) && (sound ==> Standing(pos))
        invariant sound ==> WalkFrom(img, a, start, done) == At(pos)
        invariant Components(path) == done + Components(path[cursor..])
        invariant cursor > 0 ==> Components(path[cursor..]) != []
        invariant cursor == 0 ==> done == [] && path[cursor..] == path
        decreases |path| - cursor
      {
        var component;
        component, cursor := TakeComponent(path, cursor, done);
        if component == [] { return OK, pos, []; }
        ghost var rest := Components(path[cursor..]);
        if cursor == |path| {
          if sound { LastReached(img, a, Here(), path, done, pos, component); }
          return OK, pos, component;
        }
        res, pos := WalkAlong(pos, component, start, done, rest[..|rest| - 1], sound);
        if res != OK {
          if sound && res != ERR_IO { LastNotReached(img, a, Here(), path, done, component, rest, res); }
          return;
        }
        done := done + [component];
      }
    }

    // ---------------------------------------------------------------- the calls of the kernel

    /** Operations that keep every directory keep the current one where its stack says. */
    lemma StillReady(img: Image, t: Tree)
      requires fs.Whole({}) && PositionOk(img, t, Here()) && cwd == CwdText(names) && t.dirs <= fs.tree.dirs
      requires forall d, n | FolderAt(img, t, d, n).Some? :: FolderAt(fs.View(), fs.tree, d, n) == FolderAt(img, t, d, n)
      ensures Ready()
    {
      PositionSurvives(img, t, fs.View(), fs.tree, Here());
    }

    /** fat12_read_file. */
    method ReadFile(path: seq<byte>, out: array<byte>, maxSize: nat) returns (res: int, size: nat)
      requires fs.Buffers() && (fs.ready ==> Ready() || Steady()) && maxSize <= out.Length
      requires out != fs.root && out != fs.buffer && out != fs.table.bytes
      modifies fs.dev`clock, fs.buffer, out
      ensures fs.dev.clock >= old(fs.dev.clock)
      ensures !fs.ready ==> res == ERR_NOT_INITIALIZED
      ensures fs.ready ==> fs.Mounted() && fs.View() == old(fs.View()) && Small(Here())
      ensures (old(Ready()) ==> Ready()) && (old(Steady()) ==> Steady())
      ensures res == ERR_IO ==> !fs.dev.FineSince(old(fs.dev.clock))
      ensures res == OK ==> size <= maxSize && forall k | size <= k < out.Length :: out[k] == old(out[k])
      ensures res != OK && res != ERR_IO ==> out[..] == old(out[..])
      ensures old(Ready()) && res != ERR_IO ==>
                match Resolve(fs.View(), fs.tree.alloc, Here(), path)
                case NoTarget(code) => res == code
                case Target(d, n) =>
                  match FileAt(fs.View(), fs.tree, d, n)
                  case Some(content) => if |content| <= maxSize then res == OK && size == |content| && out[..size] == content
                                        else res == ERR_BUFFER_SMALL
                  case None => res == (if FolderAt(fs.View(), fs.tree, d, n).Some? then ERR_NOT_FILE else ERR_NOT_FOUND)
    {
      hide WellFormed, Resolve, CwdText, FileSystem.View, FileSystem.Synced, FileAt, FolderAt, AttrAt, FileSystem.Sturdy;
      size := 0;
      if !fs.ready { return ERR_NOT_INITIALIZED, 0; }
      ReadyParts();
      var d, n;
      res, d, n := ResolveParentAndName(path);
      if res != OK { return; }
      if Ready() { FileOrFolder(fs.View(), fs.tree, d, n); }
      res, size := fs.ReadFileAt(d, n, out, maxSize);
    }

    /** fat12_write_file. `target` is what the path names; `kept` is false when a write to a directory failed. */
    method WriteFile(path: seq<byte>, data: seq<byte>) returns (res: int, kept: bool, ghost target: Target)
      requires fs.Buffers() && (fs.ready ==> Ready() || Steady()) && |data| < TWO32
      modifies fs.dev, fs.table`dirty, fs.table.bytes, fs.buffer, fs.root, fs`rootDirty, fs`mirrored, fs`tree
      ensures fs.dev.clock >= old(fs.dev.clock) && (!fs.ready ==> res == ERR_NOT_INITIALIZED && fs.Buffers())
      ensures fs.ready ==> fs.Mounted() && Small(Here()) && (old(Steady()) ==> Steady()) && (old(fs.mirrored) ==> fs.mirrored)
      ensures res == ERR_IO ==> !fs.dev.FineSince(old(fs.dev.clock))
      ensures fs.ready && res == OK && fs.dev.FineSince(old(fs.dev.clock)) ==> !fs.rootDirty && !fs.table.dirty
      ensures fs.ready ==> target == Resolve(old(fs.View()), old(fs.tree).alloc, Here(), path)
      ensures old(Ready()) && target.NoTarget? ==>
                kept && fs.View() == old(fs.View()) && fs.tree == old(fs.tree) && (res != ERR_IO ==> res == target.code)
      ensures old(Ready()) && res == OK ==> target.Target?
      ensures old(Ready())
              && (kept || (&& target.Target?
                           && Unharmed(old(fs.View()), old(fs.tree).alloc, fs.View(), fs.tree.alloc, target.dir))) ==>
                Ready()
      ensures old(Ready()) && target.Target? ==>
                && res in {OK, ERR_ALREADY_EXISTS, ERR_DIR_FULL, ERR_NO_FREE_CLUSTER, ERR_IO}
                && WriteEffect(res, kept, old(fs.View()), old(fs.tree), fs.View(), fs.tree, target.dir, target.name, data,
                               ClustersNeeded(|data|, fs.geo.clusterSize))
      ensures old(Ready()) && res != OK && res != ERR_IO ==>
                fs.table.bytes[..] == old(fs.table.bytes[..]) && fs.root[..] == old(fs.root[..])
      ensures old(Ready()) && fs.dev.FineSince(old(fs.dev.clock)) ==>
                res == match target
                       case NoTarget(code) => code
                       case Target(d, n) =>
                         WriteOutcome(old(fs.View()), old(fs.tree), d, n, ClustersNeeded(|data|, fs.geo.clusterSize))
    {
      hide WellFormed, PositionOk, Resolve, CwdText, FileSystem.View, FileSystem.Synced, SlotsOf, FolderAt, AttrAt, Entry,
           FileSystem.Sturdy, Lengthened, WriteEffect, WriteOutcome, MakeEffect, MakeOutcome, ClustersNeeded;
      kept, target := true, NoTarget(0);
      if !fs.ready { return ERR_NOT_INITIALIZED, true, target; }
      ReadyParts();
      ghost var img, t, sound := fs.View(), fs.tree, Ready();
      target := Resolve(img, t.alloc, Here(), path);
      var d, n;
      res, d, n := ResolveParentAndName(path);
      if res != OK {
        if sound && target.Target? {
          NothingWritten(res, false, img, t, target.dir, target.name, data, ClustersNeeded(|data|, fs.geo.clusterSize));
        }
        return;
      }
      res, kept := fs.WriteFileAt(d, n, data);
      if sound && (kept || Unharmed(img, t.alloc, fs.View(), fs.tree.alloc, d)) {
        WrittenKeepsFolders(res, kept, img, t, fs.View(), fs.tree, d, n, data, ClustersNeeded(|data|, fs.geo.clusterSize));
        StillReady(img, t);
      }
    }

    /** fat12_create_directory; `h` is the new directory's first cluster. */
    method CreateDirectory(path: seq<byte>) returns (res: int, kept: bool, h: nat, ghost target: Target)
      requires fs.Buffers() && (fs.ready ==> Ready() || Steady())
      modifies fs.dev, fs.table`dirty, fs.table.bytes, fs.buffer, fs.root, fs`rootDirty, fs`mirrored, fs`tree
      ensures fs.dev.clock >= old(fs.dev.clock) && (!fs.ready ==> res == ERR_NOT_INITIALIZED)
      ensures fs.ready ==> fs.Mounted() && Small(Here()) && (old(Steady()) ==> Steady()) && (old(fs.mirrored) ==> fs.mirrored)
      ensures res == ERR_IO ==> !fs.dev.FineSince(old(fs.dev.clock))
      ensures fs.ready && res == OK && fs.dev.FineSince(old(fs.dev.clock)) ==> !fs.rootDirty && !fs.table.dirty
      ensures fs.ready ==> target == Resolve(old(fs.View()), old(fs.tree).alloc, Here(), path)
      ensures old(Ready()) && target.NoTarget? ==>
                kept && fs.View() == old(fs.View()) && fs.tree == old(fs.tree) && (res != ERR_IO ==> res == target.code)
      ensures old(Ready()) && res == OK ==> target.Target?
      ensures old(Ready())
              && (kept || (&& res != OK && target.Target?
                           && Unharmed(old(fs.View()), old(fs.tree).alloc, fs.View(), fs.tree.alloc, target.dir)))
              ==> Ready()
      ensures old(Ready()) && target.Target? ==>
                && res in {OK, ERR_ALREADY_EXISTS, ERR_DIR_FULL, ERR_NO_FREE_CLUSTER, ERR_IO} && (target.dir == 0 ==> kept)
                && MakeEffect(res, kept, old(fs.View()), old(fs.tree), fs.View(), fs.tree, target.dir, target.name, h, 1)
      ensures old(Ready()) && res != OK && res != ERR_IO ==>
                fs.table.bytes[..] == old(fs.table.bytes[..]) && fs.root[..] == old(fs.root[..])
      ensures old(Ready()) && fs.dev.FineSince(old(fs.dev.clock)) ==>
                && kept
                && res == match target
                          case NoTarget(code) => code
                          case Target(d, n) => MakeOutcome(old(fs.View()), old(fs.tree), d, n)
    {
      hide WellFormed, PositionOk, Resolve, CwdText, FileSystem.View, FileSystem.Synced, SlotsOf, FolderAt, AttrAt, Entry,
           FileSystem.Sturdy, Lengthened, WriteEffect, WriteOutcome, MakeEffect, MakeOutcome, ClustersNeeded;
      kept, target, h := true, NoTarget(0), 0;
      if !fs.ready { return ERR_NOT_INITIALIZED, true, 0, target; }
      ReadyParts();
      ghost var img, t, sound := fs.View(), fs.tree, Ready();
      target := Resolve(img, t.alloc, Here(), path);
      var d, n;
      res, d, n := ResolveParentAndName(path);
      if res != OK {
        if sound && target.Target? { NothingMade(img, t, target.dir, target.name, h, 1); }
        return;
      }
      res, kept, h := fs.CreateDirectoryAt(d, n);
      if sound && (kept || (res != OK && Unharmed(img, t.alloc, fs.View(), fs.tree.alloc, d))) {
        MadeKeepsFolders(res, kept, img, t, fs.View(), fs.tree, d, n, h);
        StillReady(img, t);
      }
    }

    /** fat12_delete_file. */
    method DeleteFile(path: seq<byte>) returns (res: int, kept: bool, ghost target: Target)
      requires fs.Buffers() && (fs.ready ==> Ready() || Steady())
      modifies fs.dev, fs.table`dirty, fs.table.bytes, fs.buffer, fs.root, fs`rootDirty, fs`mirrored, fs`tree
      ensures fs.dev.clock >= old(fs.dev.clock) && (!fs.ready ==> res == ERR_NOT_INITIALIZED)
      ensures fs.ready ==> fs.Mounted() && Small(Here()) && (old(Steady()) ==> Steady()) && (old(fs.mirrored) ==> fs.mirrored)
      ensures res == ERR_IO ==> !fs.dev.FineSince(old(fs.dev.clock))
      ensures fs.ready && res == OK && fs.dev.FineSince(old(fs.dev.clock)) ==> !fs.rootDirty && !fs.table.dirty
      ensures fs.ready ==> target == Resolve(old(fs.View()), old(fs.tree).alloc, Here(), path)
      ensures old(Ready()) && target.NoTarget? ==> kept && fs.View() == old(fs.View()) && fs.tree == old(fs.tree)
      ensures old(Ready()) ==> (kept ==> Ready()) && (kept || (res == ERR_IO && target.Target? && target.dir != 0))
      ensures old(Ready()) && res == OK ==>
                target.Target? && FileAt(old(fs.View()), old(fs.tree), target.dir, target.name).Some?
                && FileChanged(old(fs.View()), old(fs.tree), fs.View(), fs.tree, target.dir, target.name, None)
      ensures old(Ready()) && res != OK && kept ==> fs.View() == old(fs.View()) && fs.tree == old(fs.tree)
      ensures old(Ready()) && !kept ==>
                Undeleted(old(fs.View()), old(fs.tree), fs.View(), fs.tree, fs.geo.clusterSize, target.dir, target.name)
      ensures old(Ready()) && res != ERR_IO ==>
                res == match target
                       case NoTarget(code) => code
                       case Target(d, n) => DeleteOutcome(old(fs.View()), old(fs.tree), d, n)
    {
      hide WellFormed, Resolve, FileSystem.View, FileAt, FolderAt, AttrAt, Entry, FileChanged, Undeleted, FileSystem.Sturdy,
           DeleteOutcome, FileSystem.Cost;
      kept, target := true, NoTarget(0);
      if !fs.ready { return ERR_NOT_INITIALIZED, true, target; }
      ReadyParts();
      ghost var img, t, sound := fs.View(), fs.tree, Ready();
      target := Resolve(img, t.alloc, Here(), path);
      var d, n;
      res, d, n := ResolveParentAndName(path);
      if res != OK { return; }
      res, kept := fs.DeleteFileAt(d, n);
      if sound && kept && res == OK {
        ChangedKeepsFolders(img, t, fs.View(), fs.tree, d, n, None);
        StillReady(img, t);
      }
    }
  }

  lemma ChangedKeepsFolders(img: Image, t: Tree, img': Image, t': Tree, d: nat, n: ShortName, content: Option<seq<byte>>)
    requires FileChanged(img, t, img', t', d, n, content)
    ensures t'.dirs == t.dirs && forall x, m :: FolderAt(img', t', x, m) == FolderAt(img, t, x, m)
  {
  }

  lemma SameKeepsFolders(img: Image, t: Tree, img': Image, t': Tree)
    requires SameFiles(img, t, img', t')
    ensures t'.dirs == t.dirs && forall x, m :: FolderAt(img', t', x, m) == FolderAt(img, t, x, m)
  {
  }

  lemma AddedKeepsFolders(img: Image, t: Tree, img': Image, t': Tree, d: nat, n: ShortName, h: nat)
    requires FolderChanged(img, t, img', t', d, n, h) && FolderAt(img, t, d, n).None?
    ensures t.dirs <= t'.dirs
    ensures forall x, m | FolderAt(img, t, x, m).Some? :: FolderAt(img', t', x, m) == FolderAt(img, t, x, m)
  {
  }

  lemma WrittenKeepsFolders(res: int, kept: bool, img: Image, t: Tree, img': Image, t': Tree, d: nat, n: ShortName, data: seq<byte>,
                            clusters: nat)
    requires WriteEffect(res, kept, img, t, img', t', d, n, data, clusters)
    requires kept || Unharmed(img, t.alloc, img', t'.alloc, d)
    ensures t'.dirs == t.dirs && forall x, m :: FolderAt(img', t', x, m) == FolderAt(img, t, x, m)
  {
    hide FileAt, FolderAt, AttrAt, Entry, SlotsOf, Lengthened, WriteOutcome, ElsewhereSame, DirFull;
  }

  lemma MadeKeepsFolders(res: int, kept: bool, img: Image, t: Tree, img': Image, t': Tree, d: nat, n: ShortName, h: nat)
    requires MakeEffect(res, kept, img, t, img', t', d, n, h, 1)
    requires kept || (res != OK && Unharmed(img, t.alloc, img', t'.alloc, d))
    ensures t.dirs <= t'.dirs
    ensures forall x, m | FolderAt(img, t, x, m).Some? :: FolderAt(img', t', x, m) == FolderAt(img, t, x, m)
  {
    hide FileAt, Entry, SlotsOf, Lengthened, StoreOutcome, ElsewhereSame, DirFull, Overwritten;
    if res == OK { AddedKeepsFolders(img, t, img', t', d, n, h); }
  }

  lemma FileOrFolder(img: Image, t: Tree, d: nat, n: ShortName)
    ensures FileAt(img, t, d, n).None? || FolderAt(img, t, d, n).None?
  {
  }

  lemma EmptyWalk(img: Image, a: Allocation, pos: Position)
    requires |pos.names| == |pos.stack|
    ensures WalkFrom(img, a, pos, []) == At(pos)
  {
  }
}
