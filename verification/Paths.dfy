/** Paths: their components, and the walk through the directory tree that they describe. */
module Paths {
  import opened Bytes
  import opened Chains
  import opened Directories
  import opened ShortNames
  import opened Volumes

  const SLASH: byte := 0x2F
  const BACKSLASH: byte := 0x5C
  const MAX_DEPTH := 16
  const CWD_SIZE := 128

  const WALK_INVALID_NAME := -6
  const WALK_NOT_FOUND := -7
  const WALK_NOT_DIRECTORY := -8

  predicate IsSeparator(c: byte) {
    c == SLASH || c == BACKSLASH
  }

  /** The number of separators that `p` starts with. */
  function LeadingSeparators(p: seq<byte>): (n: nat)
    ensures n <= |p|
    ensures forall i | 0 <= i < n :: IsSeparator(p[i])
    ensures n < |p| ==> !IsSeparator(p[n])
  {
    if p != [] && IsSeparator(p[0]) then 1 + LeadingSeparators(p[1..]) else 0
  }

  /** The length of the component that `p` starts with. */
  function TokenLength(p: seq<byte>): (n: nat)
    ensures n <= |p|
    ensures forall i | 0 <= i < n :: !IsSeparator(p[i])
    ensures n < |p| ==> IsSeparator(p[n])
  {
    if p != [] && !IsSeparator(p[0]) then 1 + TokenLength(p[1..]) else 0
  }

  function AfterSeparators(p: seq<byte>): seq<byte> {
    p[LeadingSeparators(p)..]
  }

  /** The components of a path, each cut to the 31 characters that the driver's buffer holds. */
  function Components(p: seq<byte>): seq<seq<byte>>
    decreases |p|
  {
    var q := AfterSeparators(p);
    if q == [] then [] else [Cut(q[..TokenLength(q)])] + Components(q[TokenLength(q)..])
  }

  lemma LeadingSeparatorsIs(p: seq<byte>, n: nat)
    requires n <= |p| && (forall i | 0 <= i < n :: IsSeparator(p[i])) && (n < |p| ==> !IsSeparator(p[n]))
    ensures LeadingSeparators(p) == n
  {
  }

  lemma TokenLengthIs(p: seq<byte>, n: nat)
    requires n <= |p| && (forall i | 0 <= i < n :: !IsSeparator(p[i])) && (n < |p| ==> IsSeparator(p[n]))
    ensures TokenLength(p) == n
  {
  }

  /** Separators in front of a path add no component. */
  lemma ComponentsAfterSeparators(p: seq<byte>, k: nat)
    requires k <= LeadingSeparators(p)
    ensures Components(p[k..]) == Components(p)
  {
    var n := LeadingSeparators(p);
    LeadingSeparatorsIs(p[k..], n - k);
    assert p[k..][n - k..] == p[n..];
    assert AfterSeparators(p[k..]) == AfterSeparators(p);
  }

  lemma ComponentsUnfold(p: seq<byte>, q: seq<byte>, k: nat)
    requires q == AfterSeparators(p) && q != [] && k == TokenLength(q)
    ensures Components(p) == [Cut(q[..k])] + Components(q[k..])
  {
    hide AfterSeparators, TokenLength, Cut;
  }

  /** A path with `n` separators and then a component of length `k`. */
  lemma ComponentsFirst(p: seq<byte>, n: nat, k: nat)
    requires n + k <= |p| && k > 0
    requires forall i | 0 <= i < n :: IsSeparator(p[i])
    requires forall i | n <= i < n + k :: !IsSeparator(p[i])
    requires n + k < |p| ==> IsSeparator(p[n + k])
    ensures Components(p) == [Cut(p[n..n + k])] + Components(p[n + k..])
  {
    hide Components, Cut;
    LeadingSeparatorsIs(p, n);
    assert AfterSeparators(p) == p[n..];
    TokenLengthIs(p[n..], k);
    ComponentsUnfold(p, p[n..], k);
    assert p[n..][..k] == p[n..n + k];
    assert p[n..][k..] == p[n + k..];
  }

  lemma SeparatorsOnly(p: seq<byte>)
    requires forall i | 0 <= i < |p| :: IsSeparator(p[i])
    ensures Components(p) == []
  {
    LeadingSeparatorsIs(p, |p|);
  }

  lemma TokenInside(p: seq<byte>, n: nat, k: nat)
    requires n == LeadingSeparators(p) < |p| && k == TokenLength(p[n..])
    ensures 0 < k && n + k <= |p| && (forall i | n <= i < n + k :: !IsSeparator(p[i])) && (n + k < |p| ==> IsSeparator(p[n + k]))
    ensures forall i | 0 <= i < n :: IsSeparator(p[i])
  {
    hide LeadingSeparators, TokenLength;
    assert forall i | n <= i < n + k :: p[i] == p[n..][i - n];
    assert n + k < |p| ==> p[n + k] == p[n..][k];
  }

  lemma JoinedFirst(p: seq<byte>, q: seq<byte>, n: nat, k: nat)
    requires n + k <= |p| && k > 0
    requires (forall i | 0 <= i < n :: IsSeparator(p[i])) && (forall i | n <= i < n + k :: !IsSeparator(p[i]))
    requires n + k < |p| ==> IsSeparator(p[n + k])
    ensures Components(p + [SLASH] + q) == [Cut(p[n..n + k])] + Components(p[n + k..] + [SLASH] + q)
  {
    hide Cut, Components;
    var joined := p + [SLASH] + q;
    ComponentsFirst(joined, n, k);
    assert joined[n..n + k] == p[n..n + k];
    assert joined[n + k..] == p[n + k..] + [SLASH] + q;
  }

  /** Joining two paths with a separator joins their components. */
  lemma {:induction false} ComponentsJoin(p: seq<byte>, q: seq<byte>)
    ensures Components(p + [SLASH] + q) == Components(p) + Components(q)
    decreases |p|
  {
    hide Cut, Components, LeadingSeparators, TokenLength;
    var n := LeadingSeparators(p);
    if n == |p| {
      SeparatorsOnly(p);
      LeadingAtLeast(p + [SLASH] + q, n + 1);
      ComponentsAfterSeparators(p + [SLASH] + q, n + 1);
      assert (p + [SLASH] + q)[n + 1..] == q;
    } else {
      var k := TokenLength(p[n..]);
      TokenInside(p, n, k);
      ComponentsFirst(p, n, k);
      JoinedFirst(p, q, n, k);
      ComponentsJoin(p[n + k..], q);
    }
  }

  lemma LeadingAtLeast(p: seq<byte>, n: nat)
    requires n <= |p| && forall i | 0 <= i < n :: IsSeparator(p[i])
    ensures LeadingSeparators(p) >= n
  {
  }

  // ---------------------------------------------------------------- walking

  /** Where a walk stands: the directory reached, and the stack of directories and displayed names below the root. */
  datatype Position = Position(cluster: nat, stack: seq<nat>, names: seq<seq<byte>>)

  datatype Walk = At(pos: Position) | Stuck(code: int)

  function StackTop(stack: seq<nat>): nat {
    if stack == [] then 0 else stack[|stack| - 1]
  }

  const TheRoot := Position(0, [], [])

  /** Going to the parent: the stack decides, and the root is its own parent. */
  function Up(pos: Position): (r: Position)
    requires |pos.names| == |pos.stack|
    ensures |r.names| == |r.stack|
  {
    if |pos.stack| > 0 then
      var stack := pos.stack[..|pos.stack| - 1];
      Position(StackTop(stack), stack, pos.names[..|pos.names| - 1])
    else Position(0, [], [])
  }

  /** Entering a subdirectory; past 16 levels the stack no longer follows. */
  function Down(pos: Position, e: Slot): (r: Position)
    requires |pos.names| == |pos.stack|
    ensures |r.names| == |r.stack|
  {
    if |pos.stack| < MAX_DEPTH then
      Position(FirstCluster(e), pos.stack + [FirstCluster(e)], pos.names + [Display(Name(e))])
    else Position(FirstCluster(e), pos.stack, pos.names)
  }

  ghost function Step(img: Image, a: Allocation, pos: Position, component: seq<byte>): (w: Walk)
    requires |pos.names| == |pos.stack|
    ensures w.At? ==> |w.pos.names| == |w.pos.stack|
    ensures w.Stuck? ==> w.code < 0
  {
    if component == [DOT] then At(pos)
    else if component == [DOT, DOT] then At(Up(pos))
    else match Encode(component)
      case None => Stuck(WALK_INVALID_NAME)
      case Some(name) =>
        match Entry(img, a, pos.cluster, name)
        case None => Stuck(WALK_NOT_FOUND)
        case Some(e) => if !IsDirectory(e) then Stuck(WALK_NOT_DIRECTORY) else At(Down(pos, e))
  }

  ghost function WalkFrom(img: Image, a: Allocation, pos: Position, components: seq<seq<byte>>): (w: Walk)
    requires |pos.names| == |pos.stack|
    ensures w.At? ==> |w.pos.names| == |w.pos.stack|
    ensures w.Stuck? ==> w.code < 0
    decreases |components|
  {
    if components == [] then At(pos)
    else match Step(img, a, pos, components[0])
      case Stuck(code) => Stuck(code)
      case At(next) => WalkFrom(img, a, next, components[1..])
  }

  /** A walk over a concatenation is a walk after a walk. */
  lemma {:induction false} WalkJoin(img: Image, a: Allocation, pos: Position, c: seq<seq<byte>>, d: seq<seq<byte>>)
    requires |pos.names| == |pos.stack|
    ensures WalkFrom(img, a, pos, c + d) ==
            match WalkFrom(img, a, pos, c) { case Stuck(code) => Stuck(code) case At(mid) => WalkFrom(img, a, mid, d) }
    decreases |c|
  {
    if c == [] {
      assert c + d == d;
    } else {
      assert (c + d)[1..] == c[1..] + d;
      match Step(img, a, pos, c[0])
      case Stuck(code) =>
      case At(next) => WalkJoin(img, a, next, c[1..], d);
    }
  }

  /** Absolute paths start at the root, relative ones at the current directory. */
  function Start(pos: Position, path: seq<byte>): Position {
    if path != [] && IsSeparator(path[0]) then TheRoot else pos
  }

  /** fat12_change_directory as a function. */
  ghost function ChangeDirectory(img: Image, a: Allocation, pos: Position, path: seq<byte>): (w: Walk)
    requires |pos.names| == |pos.stack|
    ensures w.At? ==> |w.pos.names| == |w.pos.stack|
    ensures w.Stuck? ==> w.code < 0
  {
    if path == [] then At(pos) else WalkFrom(img, a, Start(pos, path), Components(path))
  }

  /** Changing to p and then to the relative path q is changing to p/q, failures included. */
  lemma ChangeDirectoryComposes(img: Image, a: Allocation, pos: Position, p: seq<byte>, q: seq<byte>)
    requires |pos.names| == |pos.stack| && p != [] && q != [] && !IsSeparator(q[0])
    ensures ChangeDirectory(img, a, pos, p + [SLASH] + q) ==
            match ChangeDirectory(img, a, pos, p)
            { case Stuck(code) => Stuck(code) case At(mid) => ChangeDirectory(img, a, mid, q) }
  {
    ComponentsJoin(p, q);
    WalkJoin(img, a, Start(pos, p), Components(p), Components(q));
    assert (p + [SLASH] + q)[0] == p[0];
  }

  datatype Target = Target(dir: nat, name: ShortName) | NoTarget(code: int)

  /** fat12_resolve_parent_and_name as a function: the last component is a name, the others are walked. */
  ghost function Resolve(img: Image, a: Allocation, pos: Position, path: seq<byte>): (r: Target)
    requires |pos.names| == |pos.stack|
    ensures r.NoTarget? ==> r.code < 0
  {
    var c := Components(path);
    if c == [] then NoTarget(WALK_INVALID_NAME)
    else match WalkFrom(img, a, Start(pos, path), c[..|c| - 1])
      case Stuck(code) => NoTarget(code)
      case At(parent) =>
        var last := c[|c| - 1];
        if last == [DOT] || last == [DOT, DOT] then NoTarget(WALK_INVALID_NAME)
        else match Encode(last)
          case None => NoTarget(WALK_INVALID_NAME)
          case Some(name) => Target(parent.cluster, name)
  }

  /** A path p/name resolves to that name in the directory that changing to p reaches. When it does not resolve, changing
      to p fails with the same code, or the name is a dot name or not an 8.3 name. */
  lemma ResolveReachesParent(img: Image, a: Allocation, pos: Position, p: seq<byte>, name: seq<byte>)
    requires |pos.names| == |pos.stack| && p != [] && |Components(name)| == 1
    ensures var last := Components(name)[0];
            Resolve(img, a, pos, p + [SLASH] + name) ==
            match ChangeDirectory(img, a, pos, p)
            { case Stuck(code) => NoTarget(code)
              case At(mid) =>
                if last == [DOT] || last == [DOT, DOT] || Encode(last).None? then NoTarget(WALK_INVALID_NAME)
                else Target(mid.cluster, Encode(last).value) }
  {
    ComponentsJoin(p, name);
    var c := Components(p) + Components(name);
    assert c[..|c| - 1] == Components(p);
    assert (p + [SLASH] + name)[0] == p[0];
  }

  /** Going up undoes going down exactly as long as the stack has room: past 16 levels `..` leads elsewhere. */
  lemma UpUndoesDown(img: Image, t: Tree, pos: Position, e: Slot)
    requires PositionOk(img, t, pos)
    ensures Up(Down(pos, e)) == pos <==> |pos.stack| < MAX_DEPTH
    ensures |pos.stack| == MAX_DEPTH ==> Up(Down(pos, e)).cluster == pos.stack[MAX_DEPTH - 2]
  {
    if |pos.stack| < MAX_DEPTH {
      assert Down(pos, e).stack[..|pos.stack|] == pos.stack && Down(pos, e).names[..|pos.names|] == pos.names;
    }
  }

  // ---------------------------------------------------------------- the current directory

  /** The stack follows the tree: each directory on it is the one that its name names inside the one before, and
      the position is its top as long as the stack is not full. */
  ghost predicate PositionOk(img: Image, t: Tree, pos: Position) {
    && |pos.names| == |pos.stack| <= MAX_DEPTH && IsDir(t, pos.cluster)
    && (|pos.stack| < MAX_DEPTH ==> pos.cluster == StackTop(pos.stack))
    && (forall i | 0 <= i < |pos.stack| :: LevelOk(img, t, pos, i))
  }

  ghost predicate LevelOk(img: Image, t: Tree, pos: Position, i: nat)
    requires i < |pos.stack| == |pos.names|
  {
    && Encode(pos.names[i]).Some?
    && FolderAt(img, t, if i == 0 then 0 else pos.stack[i - 1], Encode(pos.names[i]).value) == Some(pos.stack[i])
    && Display(Encode(pos.names[i]).value) == pos.names[i]
  }

  lemma RootPositionOk(img: Image, t: Tree)
    ensures PositionOk(img, t, TheRoot)
  {
  }

  lemma FoldersAreDirs(img: Image, t: Tree, cs: nat, d: nat, n: ShortName)
    requires WellFormed(img, t, cs, {}) && FolderAt(img, t, d, n).Some?
    ensures IsDir(t, FolderAt(img, t, d, n).value)
  {
    EntryIsOk(img, t, cs, {}, d, n);
  }

  lemma UpKeepsPosition(img: Image, t: Tree, cs: nat, pos: Position)
    requires WellFormed(img, t, cs, {}) && PositionOk(img, t, pos)
    ensures PositionOk(img, t, Up(pos))
  {
    hide WellFormed, FolderAt, AttrAt, Display;
    var up := Up(pos);
    forall i | 0 <= i < |up.stack| ensures LevelOk(img, t, up, i) {
      assert LevelOk(img, t, pos, i);
    }
    if |up.stack| > 0 {
      var i := |up.stack| - 1;
      assert LevelOk(img, t, pos, i);
      FoldersAreDirs(img, t, cs, if i == 0 then 0 else pos.stack[i - 1], Encode(pos.names[i]).value);
    }
  }

  lemma DownKeepsPosition(img: Image, t: Tree, cs: nat, pos: Position, component: seq<byte>)
    requires WellFormed(img, t, cs, {}) && PositionOk(img, t, pos) && Encode(component).Some?
    requires var e := Entry(img, t.alloc, pos.cluster, Encode(component).value); e.Some? && IsDirectory(e.value)
    ensures PositionOk(img, t, Down(pos, Entry(img, t.alloc, pos.cluster, Encode(component).value).value))
  {
    hide WellFormed, Display, Entry;
    var name := Encode(component).value;
    var e := Entry(img, t.alloc, pos.cluster, name).value;
    var down := Down(pos, e);
    EncodedFirstByte(component);
    EncodeDecode(component);
    EntryStepsName(img, t, pos.cluster, name);
    FoldersAreDirs(img, t, cs, pos.cluster, name);
    forall i | 0 <= i < |down.stack| ensures LevelOk(img, t, down, i) {
      if i < |pos.stack| { assert LevelOk(img, t, pos, i); }
    }
  }

  /** A directory entry found under an encoded name is a subdirectory of that very name. */
  lemma EntryStepsName(img: Image, t: Tree, d: nat, n: ShortName)
    requires IsDir(t, d) && IsValidChar(n[0])
    requires Entry(img, t.alloc, d, n).Some? && IsDirectory(Entry(img, t.alloc, d, n).value)
    ensures FolderAt(img, t, d, n) == Some(FirstCluster(Entry(img, t.alloc, d, n).value))
    ensures Name(Entry(img, t.alloc, d, n).value) == n
  {
    var slots := SlotsOf(img, t.alloc, d);
    var i: nat :| IsAt(slots, n, i) && Lookup(slots, n) == Some(slots[i]);
    assert IsAt(slots, n, i);
    assert Name(slots[i])[0] == slots[i][0];
  }

  /** Every walk keeps the stack in step with the tree. */
  lemma {:induction false} WalkKeepsPosition(img: Image, t: Tree, cs: nat, pos: Position, c: seq<seq<byte>>)
    requires WellFormed(img, t, cs, {}) && PositionOk(img, t, pos) && WalkFrom(img, t.alloc, pos, c).At?
    ensures PositionOk(img, t, WalkFrom(img, t.alloc, pos, c).pos)
    decreases |c|
  {
    if c != [] {
      PositionSizes(img, t, pos);
      var next := Step(img, t.alloc, pos, c[0]).pos;
      StepKeepsPosition(img, t, cs, pos, c[0]);
      PositionSizes(img, t, next);
      WalkKeepsPosition(img, t, cs, next, c[1..]);
    }
  }

  lemma PositionSizes(img: Image, t: Tree, pos: Position)
    requires PositionOk(img, t, pos)
    ensures |pos.names| == |pos.stack| && IsDir(t, pos.cluster)
  {
  }

  lemma StepKeepsPosition(img: Image, t: Tree, cs: nat, pos: Position, component: seq<byte>)
    requires WellFormed(img, t, cs, {}) && PositionOk(img, t, pos)
    requires |pos.names| == |pos.stack| && Step(img, t.alloc, pos, component).At?
    ensures PositionOk(img, t, Step(img, t.alloc, pos, component).pos)
  {
    if component == [DOT] {
    } else if component == [DOT, DOT] {
      UpKeepsPosition(img, t, cs, pos);
    } else {
      DownKeepsPosition(img, t, cs, pos, component);
    }
  }

  /** File operations only add directories, so the stack keeps following the tree. */
  lemma PositionSurvives(img: Image, t: Tree, img': Image, t': Tree, pos: Position)
    requires PositionOk(img, t, pos) && t.dirs <= t'.dirs
    requires forall d, n | FolderAt(img, t, d, n).Some? :: FolderAt(img', t', d, n) == FolderAt(img, t, d, n)
    ensures PositionOk(img', t', pos)
  {
    forall i | 0 <= i < |pos.stack| ensures LevelOk(img', t', pos, i) {
      assert LevelOk(img, t, pos, i);
    }
  }

  /** Operations that keep every directory keep every successful walk. */
  lemma StepSurvives(img: Image, t: Tree, cs: nat, img': Image, t': Tree, pos: Position, component: seq<byte>)
    requires WellFormed(img, t, cs, {}) && WellFormed(img', t', cs, {}) && PositionOk(img, t, pos) && t'.dirs == t.dirs
    requires forall d, n :: FolderAt(img', t', d, n) == FolderAt(img, t, d, n)
    requires Step(img, t.alloc, pos, component).At?
    ensures Step(img', t'.alloc, pos, component) == Step(img, t.alloc, pos, component)
  {
    if component != [DOT] && component != [DOT, DOT] {
      var n := Encode(component).value;
      EncodedFirstByte(component);
      EntryStepsName(img, t, pos.cluster, n);
      FolderIsEntry(img', t', pos.cluster, n);
    }
  }

  lemma FolderIsEntry(img: Image, t: Tree, d: nat, n: ShortName)
    requires FolderAt(img, t, d, n).Some?
    ensures var e := Entry(img, t.alloc, d, n);
            e.Some? && IsDirectory(e.value) && Name(e.value) == n && FolderAt(img, t, d, n) == Some(FirstCluster(e.value))
  {
    var slots := SlotsOf(img, t.alloc, d);
    var k: nat :| IsAt(slots, n, k) && Lookup(slots, n) == Some(slots[k]);
  }

  lemma {:induction false} WalkSurvives(img: Image, t: Tree, cs: nat, img': Image, t': Tree, pos: Position, c: seq<seq<byte>>)
    requires WellFormed(img, t, cs, {}) && WellFormed(img', t', cs, {}) && PositionOk(img, t, pos) && t'.dirs == t.dirs
    requires forall d, n :: FolderAt(img', t', d, n) == FolderAt(img, t, d, n)
    requires WalkFrom(img, t.alloc, pos, c).At?
    ensures WalkFrom(img', t'.alloc, pos, c) == WalkFrom(img, t.alloc, pos, c)
    decreases |c|
  {
    PositionSizes(img, t, pos);
    if c != [] {
      StepSurvives(img, t, cs, img', t', pos, c[0]);
      StepKeepsPosition(img, t, cs, pos, c[0]);
      WalkSurvives(img, t, cs, img', t', Step(img, t.alloc, pos, c[0]).pos, c[1..]);
    }
  }

  /** So a path goes on naming the same file. */
  lemma ResolveSurvives(img: Image, t: Tree, cs: nat, img': Image, t': Tree, pos: Position, path: seq<byte>)
    requires WellFormed(img, t, cs, {}) && WellFormed(img', t', cs, {}) && PositionOk(img, t, pos) && t'.dirs == t.dirs
    requires forall d, n :: FolderAt(img', t', d, n) == FolderAt(img, t, d, n)
    requires |pos.names| == |pos.stack| && Resolve(img, t.alloc, pos, path).Target?
    ensures Resolve(img', t'.alloc, pos, path) == Resolve(img, t.alloc, pos, path)
  {
    RootPositionOk(img, t);
    var c := Components(path);
    WalkSurvives(img, t, cs, img', t', Start(pos, path), c[..|c| - 1]);
  }

  // ---------------------------------------------------------------- the text of the current directory

  /** The loop of fat12_rebuild_cwd from level i on: it stops at the first name that would not fit. */
  function Extend(out: seq<byte>, names: seq<seq<byte>>, i: nat): seq<byte>
    requires i <= |names|
    decreases |names| - i
  {
    if i == |names| then out
    else if |names[i]| == 0 then Extend(out, names, i + 1)
    else if |out| + |names[i]| + 1 >= CWD_SIZE then out
    else Extend(out + names[i] + (if i != |names| - 1 then [SLASH] else []), names, i + 1)
  }

  /** fat12_rebuild_cwd. */
  function CwdText(names: seq<seq<byte>>): seq<byte> {
    Extend([SLASH], names, 0)
  }

  /** The length of the names and their separators. */
  function TextLength(names: seq<seq<byte>>): nat {
    if names == [] then 0 else |names[0]| + 1 + TextLength(names[1..])
  }

  /** Every name fits into the buffer. */
  predicate NothingDropped(names: seq<seq<byte>>) {
    names == [] || 1 + TextLength(names) < CWD_SIZE
  }

  ghost predicate IsComponent(c: seq<byte>) {
    1 <= |c| <= MAX_COMPONENT && forall i | 0 <= i < |c| :: !IsSeparator(c[i])
  }

  lemma ComponentsOfComponent(c: seq<byte>)
    requires IsComponent(c)
    ensures Components(c) == [c]
  {
    ComponentsFirst(c, 0, |c|);
    assert c[0..|c|] == c && c[|c|..] == [];
    SeparatorsOnly([]);
  }

  lemma TrailingSeparator(p: seq<byte>)
    ensures Components(p + [SLASH]) == Components(p)
  {
    ComponentsJoin(p, []);
    assert p + [SLASH] + [] == p + [SLASH];
    SeparatorsOnly([]);
  }

  /** What is in the text are the first names, and all of them exactly when they fit. */
  lemma {:induction false} ExtendComponents(out: seq<byte>, names: seq<seq<byte>>, i: nat) returns (k: nat)
    requires i <= |names| && forall j | 0 <= j < |names| :: IsComponent(names[j])
    requires Components(out) == names[..i]
    ensures i <= k <= |names| && Components(Extend(out + [SLASH], names, i)) == names[..k]
    ensures k == |names| <==> i == |names| || |out| + 1 + TextLength(names[i..]) < CWD_SIZE
    decreases |names| - i
  {
    hide Components;
    TrailingSeparator(out);
    k := i;
    if i < |names| {
      TextLengthFrom(names, i);
      NameIsNotEmpty(names[i]);
      ComponentsJoin(out, names[i]);
      ComponentsOfComponent(names[i]);
      assert names[..i] + [names[i]] == names[..i + 1];
      var longer := out + [SLASH] + names[i];
      if |out| + 1 + |names[i]| + 1 < CWD_SIZE {
        if i == |names| - 1 {
          k := i + 1;
          assert longer + [] == longer;
        } else {
          k := ExtendComponents(longer, names, i + 1);
        }
      }
    }
  }

  lemma NameIsNotEmpty(c: seq<byte>)
    requires IsComponent(c)
    ensures |c| > 0
  {
  }

  lemma TextLengthFrom(names: seq<seq<byte>>, i: nat)
    requires i < |names|
    ensures TextLength(names[i..]) == |names[i]| + 1 + TextLength(names[i + 1..])
    ensures i == |names| - 1 ==> TextLength(names[i + 1..]) == 0
  {
    assert names[i..][1..] == names[i + 1..];
  }

  /** Walking the displayed names from the root rebuilds the stack. */
  lemma {:induction false} WalkNames(img: Image, t: Tree, pos: Position, k: nat)
    requires PositionOk(img, t, pos) && k <= |pos.stack|
    ensures |pos.names| == |pos.stack|
    ensures WalkFrom(img, t.alloc, TheRoot, pos.names[..k]) == At(Position(StackTop(pos.stack[..k]), pos.stack[..k], pos.names[..k]))
  {
    hide Step;
    if k > 0 {
      WalkNames(img, t, pos, k - 1);
      var before := Position(StackTop(pos.stack[..k - 1]), pos.stack[..k - 1], pos.names[..k - 1]);
      assert pos.names[..k] == pos.names[..k - 1] + [pos.names[k - 1]];
      WalkJoin(img, t.alloc, TheRoot, pos.names[..k - 1], [pos.names[k - 1]]);
      LevelStep(img, t, pos, k - 1);
      assert pos.stack[..k] == pos.stack[..k - 1] + [pos.stack[k - 1]];
      WalkOne(img, t.alloc, before, pos.names[k - 1]);
    }
  }

  lemma WalkOne(img: Image, a: Allocation, pos: Position, c: seq<byte>)
    requires |pos.names| == |pos.stack|
    ensures WalkFrom(img, a, pos, [c]) == Step(img, a, pos, c)
  {
    match Step(img, a, pos, c)
    case Stuck(code) =>
    case At(next) => assert WalkFrom(img, a, next, []) == At(next);
  }

  lemma LevelStep(img: Image, t: Tree, pos: Position, i: nat)
    requires PositionOk(img, t, pos) && i < |pos.stack|
    ensures |pos.names| == |pos.stack|
    ensures Step(img, t.alloc, Position(StackTop(pos.stack[..i]), pos.stack[..i], pos.names[..i]), pos.names[i]) ==
            At(Position(pos.stack[i], pos.stack[..i] + [pos.stack[i]], pos.names[..i] + [pos.names[i]]))
  {
    hide Display, Entry;
    assert LevelOk(img, t, pos, i);
    var d := if i == 0 then 0 else pos.stack[i - 1];
    var name := Encode(pos.names[i]).value;
    assert StackTop(pos.stack[..i]) == d;
    EncodedFirstByte(pos.names[i]);
    DisplayOfEncoded(pos.names[i]);
    EntryStepsName(img, t, d, name);
  }

  /** Changing to the displayed current directory comes back to it exactly when no name was dropped from the text
      and the position is the top of the stack, as it is down to 16 levels. */
  lemma CwdRoundTrip(img: Image, t: Tree, pos: Position, from: Position)
    requires PositionOk(img, t, pos) && |from.names| == |from.stack|
    ensures |pos.names| == |pos.stack|
    ensures ChangeDirectory(img, t.alloc, from, CwdText(pos.names)) == At(pos) <==>
            NothingDropped(pos.names) && pos.cluster == StackTop(pos.stack)
  {
    hide Step, WalkFrom;
    forall j | 0 <= j < |pos.names| ensures IsComponent(pos.names[j]) {
      assert LevelOk(img, t, pos, j);
      LevelNameIsComponent(pos.names[j]);
    }
    SeparatorsOnly([]);
    assert pos.names[0..] == pos.names && pos.names[..0] == [] && [] + [SLASH] == [SLASH];
    var k := ExtendComponents([], pos.names, 0);
    WalkNames(img, t, pos, k);
    CwdIsAbsolute(pos.names);
    assert pos.stack[..|pos.stack|] == pos.stack && pos.names[..|pos.names|] == pos.names;
    EmptyTextLength();
  }

  // ---------------------------------------------------------------- what the dot components do

  lemma EncodableIsComponent(name: seq<byte>)
    requires Encodable(name)
    ensures IsComponent(name) && name != [DOT] && name != [DOT, DOT]
  {
    var u := Upper(name);
    var d := DotIndex(u);
    assert Base(u)[0] == u[0];
    forall i | 0 <= i < |name| ensures !IsSeparator(name[i]) {
      assert i < d ==> Base(u)[i] == u[i];
      assert i > d ==> Extension(u)[i - d - 1] == u[i];
    }
  }

  /** `name/..`: down and up again. */
  lemma DownAndUp(img: Image, a: Allocation, pos: Position, name: seq<byte>)
    requires |pos.names| == |pos.stack| && Encode(name).Some?
    ensures ChangeDirectory(img, a, pos, name + [0x2F, 0x2E, 0x2E]) ==
            match Step(img, a, pos, name) case Stuck(code) => Stuck(code) case At(below) => At(Up(below))
  {
    hide Components;
    EncodableIsComponent(name);
    ComponentsOfComponent(name);
    ComponentsOfComponent([DOT, DOT]);
    assert name + [0x2F, 0x2E, 0x2E] == name + [SLASH] + [DOT, DOT];
    ComponentsJoin(name, [DOT, DOT]);
    WalkJoin(img, a, pos, [name], [[DOT, DOT]]);
    WalkOne(img, a, pos, name);
    if Step(img, a, pos, name).At? { WalkOne(img, a, Step(img, a, pos, name).pos, [DOT, DOT]); }
  }

  /** Entering a subdirectory and leaving it by `..` comes back exactly as long as there are fewer than 16 levels; with 16 it
      ends in the parent of the last directory that the stack holds. */
  lemma DotDotComesBack(img: Image, t: Tree, pos: Position, name: seq<byte>)
    requires PositionOk(img, t, pos) && Encode(name).Some? && FolderAt(img, t, pos.cluster, Encode(name).value).Some?
    ensures |pos.names| == |pos.stack|
    ensures ChangeDirectory(img, t.alloc, pos, name + [0x2F, 0x2E, 0x2E]) == At(pos) <==> |pos.stack| < 16
    ensures |pos.stack| == 16 ==>
              ChangeDirectory(img, t.alloc, pos, name + [0x2F, 0x2E, 0x2E]) ==
              At(Position(pos.stack[14], pos.stack[..15], pos.names[..15]))
  {
    hide FolderAt, AttrAt, Display, LevelOk;
    DownAndUp(img, t.alloc, pos, name);
    FolderIsEntry(img, t, pos.cluster, Encode(name).value);
    EncodableIsComponent(name);
    var e := Entry(img, t.alloc, pos.cluster, Encode(name).value).value;
    UpUndoesDown(img, t, pos, e);
    if |pos.stack| == 16 { assert Up(Down(pos, e)) == Position(pos.stack[14], pos.stack[..15], pos.names[..15]); }
  }

  /** Leaving a directory by `..` and entering it again under its name comes back as well. */
  lemma DotDotAndBack(img: Image, t: Tree, pos: Position)
    requires PositionOk(img, t, pos) && 0 < |pos.stack| && pos.cluster == StackTop(pos.stack)
    ensures |pos.names| == |pos.stack|
    ensures ChangeDirectory(img, t.alloc, pos, [0x2E, 0x2E, 0x2F] + pos.names[|pos.names| - 1]) == At(pos)
  {
    hide Components, Step, Encode, Display;
    var k := |pos.stack| - 1;
    var name := pos.names[k];
    assert LevelOk(img, t, pos, k);
    LevelNameIsComponent(name);
    ComponentsOfComponent(name);
    ComponentsOfComponent([DOT, DOT]);
    assert [0x2E, 0x2E, 0x2F] + name == [DOT, DOT] + [SLASH] + name;
    ComponentsJoin([DOT, DOT], name);
    WalkJoin(img, t.alloc, pos, [[DOT, DOT]], [name]);
    WalkOne(img, t.alloc, pos, [DOT, DOT]);
    UpOne(img, t.alloc, pos);
    var up := Position(StackTop(pos.stack[..k]), pos.stack[..k], pos.names[..k]);
    WalkOne(img, t.alloc, up, name);
    LevelStep(img, t, pos, k);
    assert pos.stack[..k] + [pos.stack[k]] == pos.stack && pos.names[..k] + [name] == pos.names;
  }

  lemma UpOne(img: Image, a: Allocation, pos: Position)
    requires |pos.names| == |pos.stack| > 0
    ensures var k := |pos.stack| - 1;
            Step(img, a, pos, [DOT, DOT]) == At(Position(StackTop(pos.stack[..k]), pos.stack[..k], pos.names[..k]))
  {
  }

  /** The root is its own parent, and `.` stays. */
  lemma DotStays(img: Image, a: Allocation, pos: Position)
    requires |pos.names| == |pos.stack|
    ensures ChangeDirectory(img, a, pos, [0x2E]) == At(pos) && ChangeDirectory(img, a, pos, []) == At(pos)
    ensures Resolve(img, a, pos, []) == NoTarget(-6) && Resolve(img, a, pos, [0x2F]) == NoTarget(-6)
    ensures pos.stack == [] ==> ChangeDirectory(img, a, pos, [0x2E, 0x2E]) == At(Position(0, [], []))
    ensures ChangeDirectory(img, a, pos, [0x2F]) == ChangeDirectory(img, a, pos, [0x2F, 0x2E, 0x2E]) == At(Position(0, [], []))
  {
    hide Components;
    ComponentsOfComponent([DOT]);
    ComponentsOfComponent([DOT, DOT]);
    WalkOne(img, a, pos, [DOT]);
    WalkOne(img, a, pos, [DOT, DOT]);
    WalkOne(img, a, TheRoot, [DOT, DOT]);
    SeparatorsOnly([SLASH]);
    SeparatorsOnly([]);
    ComponentsJoin([], [DOT, DOT]);
    assert [] + [SLASH] + [DOT, DOT] == [0x2F, 0x2E, 0x2E] && [] + [[DOT, DOT]] == [[DOT, DOT]];
    assert WalkFrom(img, a, TheRoot, []) == At(TheRoot);
  }

  /** A single name leads into the folder of that name, with one level more on the stack unless it holds 16 already; otherwise the
      result tells an unusable name (-6) from a missing one (-7) and from a file (-8). */
  lemma NameLeadsTo(img: Image, t: Tree, pos: Position, name: seq<byte>)
    requires PositionOk(img, t, pos) && IsComponent(name) && name != [0x2E] && name != [0x2E, 0x2E]
    ensures |pos.names| == |pos.stack|
    ensures ChangeDirectory(img, t.alloc, pos, name) ==
            if Encode(name).None? then Stuck(-6)
            else
              var n := Encode(name).value;
              match FolderAt(img, t, pos.cluster, n)
              case None => Stuck(if FileAt(img, t, pos.cluster, n).Some? then -8 else -7)
              case Some(h) =>
                At(if |pos.stack| < 16 then Position(h, pos.stack + [h], pos.names + [Display(n)]) else Position(h, pos.stack, pos.names))
  {
    hide Components, Encode, Display, LevelOk;
    ComponentsOfComponent(name);
    WalkOne(img, t.alloc, pos, name);
    if Encode(name).Some? {
      var n := Encode(name).value;
      EncodedFirstByte(name);
      FolderByName(img, t, pos.cluster, n);
      if FolderAt(img, t, pos.cluster, n).Some? { FolderIsEntry(img, t, pos.cluster, n); }
    }
  }

  lemma FolderByName(img: Image, t: Tree, d: nat, n: ShortName)
    requires IsDir(t, d) && IsValidChar(n[0])
    ensures FolderAt(img, t, d, n).Some? <==> Entry(img, t.alloc, d, n).Some? && IsDirectory(Entry(img, t.alloc, d, n).value)
    ensures FileAt(img, t, d, n).Some? <==> Entry(img, t.alloc, d, n).Some? && !IsDirectory(Entry(img, t.alloc, d, n).value)
  {
    hide Content;
    if Entry(img, t.alloc, d, n).Some? && IsDirectory(Entry(img, t.alloc, d, n).value) { EntryStepsName(img, t, d, n); }
  }

  /** Both separators mean the same. */
  lemma SeparatorsAgree(img: Image, a: Allocation, pos: Position, p: seq<byte>, q: seq<byte>)
    requires |pos.names| == |pos.stack|
    ensures ChangeDirectory(img, a, pos, p + [0x5C] + q) == ChangeDirectory(img, a, pos, p + [0x2F] + q)
    ensures Resolve(img, a, pos, p + [0x5C] + q) == Resolve(img, a, pos, p + [0x2F] + q)
  {
    hide WalkFrom, Components;
    SameComponents(p, q);
    assert Start(pos, p + [0x5C] + q) == Start(pos, p + [0x2F] + q);
  }

  lemma {:induction false} SameComponents(p: seq<byte>, q: seq<byte>)
    ensures Components(p + [0x5C] + q) == Components(p + [0x2F] + q)
    decreases |p|
  {
    hide Cut, Components, LeadingSeparators, TokenLength;
    var n := LeadingSeparators(p);
    if n == |p| {
      LeadingAtLeast(p + [0x5C] + q, n + 1);
      LeadingAtLeast(p + [0x2F] + q, n + 1);
      ComponentsAfterSeparators(p + [0x5C] + q, n + 1);
      ComponentsAfterSeparators(p + [0x2F] + q, n + 1);
      assert (p + [0x5C] + q)[n + 1..] == q == (p + [0x2F] + q)[n + 1..];
    } else {
      var k := TokenLength(p[n..]);
      TokenInside(p, n, k);
      JoinedFirst(p, q, n, k);
      OtherJoinedFirst(p, q, n, k);
      SameComponents(p[n + k..], q);
    }
  }

  lemma OtherJoinedFirst(p: seq<byte>, q: seq<byte>, n: nat, k: nat)
    requires n + k <= |p| && k > 0
    requires (forall i | 0 <= i < n :: IsSeparator(p[i])) && (forall i | n <= i < n + k :: !IsSeparator(p[i]))
    requires n + k < |p| ==> IsSeparator(p[n + k])
    ensures Components(p + [0x5C] + q) == [Cut(p[n..n + k])] + Components(p[n + k..] + [0x5C] + q)
  {
    hide Cut, Components;
    var joined := p + [0x5C] + q;
    ComponentsFirst(joined, n, k);
    assert joined[n..n + k] == p[n..n + k];
    assert joined[n + k..] == p[n + k..] + [0x5C] + q;
  }

  /** `/` in front of every name. */
  function PathOf(names: seq<seq<byte>>): seq<byte> {
    if names == [] then [] else PathOf(names[..|names| - 1]) + [0x2F] + names[|names| - 1]
  }

  lemma NoNames()
    ensures PathOf([]) == []
  {
  }

  /** Names that fit are shown like that, and the root as `/`. */
  lemma CwdIsPath(names: seq<seq<byte>>)
    requires (forall i | 0 <= i < |names| :: names[i] != []) && (names == [] || 1 + TextLength(names) < 128)
    ensures CwdText(names) == if names == [] then [0x2F] else PathOf(names)
  {
    if names == [] {
      assert CwdText(names) == [SLASH];
    } else {
      hide TextLength, Extend, PathOf;
      NoNames();
      assert names[0..] == names && names[..0] == [] && [] + [SLASH] == [SLASH];
      ExtendIsPath(names, 0);
    }
  }

  lemma {:induction false} ExtendIsPath(names: seq<seq<byte>>, i: nat)
    requires i < |names| && (forall j | 0 <= j < |names| :: names[j] != [])
    requires |PathOf(names[..i])| + 1 + TextLength(names[i..]) < 128
    ensures Extend(PathOf(names[..i]) + [SLASH], names, i) == PathOf(names)
    decreases |names| - i
  {
    var out := PathOf(names[..i]) + [SLASH];
    TextLengthFrom(names, i);
    assert names[..i + 1][..i] == names[..i];
    assert PathOf(names[..i + 1]) == out + names[i];
    if i == |names| - 1 {
      assert names[..i + 1] == names && out + names[i] + [] == out + names[i];
    } else {
      ExtendIsPath(names, i + 1);
    }
  }

  lemma EmptyTextLength()
    ensures TextLength([]) == 0
  {
  }

  lemma LevelNameIsComponent(c: seq<byte>)
    requires Encode(c).Some? && Display(Encode(c).value) == c
    ensures IsComponent(c)
  {
    DisplayOfEncoded(c);
  }

  lemma {:induction false} ExtendKeepsPrefix(out: seq<byte>, names: seq<seq<byte>>, i: nat)
    requires i <= |names| && out != []
    ensures Extend(out, names, i) != [] && Extend(out, names, i)[0] == out[0]
    decreases |names| - i
  {
    if i < |names| {
      if |names[i]| == 0 {
        ExtendKeepsPrefix(out, names, i + 1);
      } else if |out| + |names[i]| + 1 < CWD_SIZE {
        ExtendKeepsPrefix(out + names[i] + (if i != |names| - 1 then [SLASH] else []), names, i + 1);
      }
    }
  }

  lemma CwdIsAbsolute(names: seq<seq<byte>>)
    ensures CwdText(names) != [] && CwdText(names)[0] == SLASH
  {
    ExtendKeepsPrefix([SLASH], names, 0);
  }
}
