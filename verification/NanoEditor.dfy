/** The nano editor on a mounted volume: opening, saving, the keys, and whole sessions. */
module NanoEditor {
  import opened Bytes
  import opened Disk
  import opened ShortNames
  import opened Volumes
  import opened EntrySteps
  import opened Space
  import opened Outcomes
  import opened Paths
  import opened Fat12
  import opened Driver
  import opened NanoText
  import opened Nano

  /** What the buffer was last in step with: no file, a file that was read, or a file that was written. */
  datatype Origin = Fresh | Loaded | Saved

  /** A keyboard event: the scan code, whether the key was let go, the Ctrl key, and the translated character. */
  datatype Key = Key(scancode: nat, isRelease: bool, ctrl: bool, ascii: byte)

  const LETTER_N: byte := 110
  const LETTER_Y: byte := 121

  /** The keys that give up unsaved edits: Esc, and `n` as the answer to the question whether to save. */
  predicate Discards(key: Key, asked: bool) {
    !key.isRelease && (key.scancode == KEY_ESCAPE || (asked && key.ascii == LETTER_N))
  }

  predicate IsCommand(key: Key) {
    key.ctrl && key.scancode in {KEY_S, KEY_X, KEY_T, KEY_H}
  }

  predicate Commands(key: Key, scancode: nat) {
    !key.isRelease && key.ctrl && key.scancode == scancode
  }

  /** The keys that answer the question whether to save. */
  predicate Answers(key: Key) {
    !key.isRelease && (key.scancode == KEY_ESCAPE || key.ascii == LETTER_Y || key.ascii == LETTER_N)
  }

  /** The answer that asks for saving. */
  predicate SaysYes(key: Key) {
    !key.isRelease && key.scancode != KEY_ESCAPE && key.ascii == LETTER_Y
  }

  /** The keys that reach the text. */
  predicate ReachesText(key: Key, asked: bool, help: bool) {
    !help && !asked && !key.isRelease && !IsCommand(key) && key.scancode != KEY_ESCAPE
  }

  /** The keys that neither the editor nor the source gives a meaning, where the cursor stands behind the last line. */
  predicate Reaches(key: Key, asked: bool, help: bool, defined: bool) {
    ReachesText(key, asked, help) ==> defined
  }

  // ---------------------------------------------------------------- what the keys do to the text

  /** What decides where the next key goes. */
  datatype Mode = Mode(asking: bool, help: bool, dirty: bool)

  /** The help page takes the next key, the question waits for an answer, Ctrl+H and Ctrl+X bring them up. */
  predicate Follows(m: Mode, key: Key, m': Mode) {
    && m'.help == (if m.help then key.isRelease else !m.asking && Commands(key, KEY_H))
    && m'.asking == (if m.help then m.asking else if m.asking then !Answers(key) else Commands(key, KEY_X) && m.dirty)
  }

  /** The key that closes the editor and gives up the edits in that mode. */
  predicate GivesUp(key: Key, m: Mode) {
    !m.help && Discards(key, m.asking)
  }

  /** `modes[i]` is the mode in which the i-th key arrives. */
  predicate IsModal(start: Mode, keys: seq<Key>, modes: seq<Mode>) {
    && |modes| == |keys| && (modes != [] ==> modes[0] == start)
    && forall i | 0 <= i < |modes| - 1 :: Follows(modes[i], keys[i], modes[i + 1])
  }

  /** The keys by their codes: Esc (1), Ctrl with S (31), X (45), T (20) and H (35), and the letters y and n. */
  lemma KeyCodes(key: Key, asked: bool, help: bool)
    ensures ReachesText(key, asked, help) <==>
              !asked && !help && !key.isRelease && key.scancode != 1 && !(key.ctrl && key.scancode in {31, 45, 20, 35})
    ensures GivesUp(key, Mode(asked, help, true)) <==>
              !help && !key.isRelease && (key.scancode == 1 || (asked && key.ascii as char == 'n'))
    ensures SaysYes(key) <==> !key.isRelease && key.scancode != 1 && key.ascii as char == 'y'
  {
  }

  /** The question is up because of a Ctrl+X on a text with unsaved edits. */
  lemma {:induction false} QuestionWasAsked(start: Mode, keys: seq<Key>, modes: seq<Mode>, i: nat)
    requires IsModal(start, keys, modes) && i < |modes| && modes[i].asking && !start.asking
    ensures exists j | 0 <= j < i :: Commands(keys[j], KEY_X) && modes[j].dirty
  {
    assert i > 0 && Follows(modes[i - 1], keys[i - 1], modes[i]);
    if modes[i - 1].asking { QuestionWasAsked(start, keys, modes, i - 1); }
  }

  /** The text after a sequence of keys: those that reach it are typed one after the other. */
  ghost function TypedAll(t: Text, keys: seq<Key>, modes: seq<Mode>): (r: Text)
    requires IsText(t) && |modes| == |keys|
    ensures IsText(r)
  {
    if keys == [] then t
    else
      var k := |keys| - 1;
      var before := TypedAll(t, keys[..k], modes[..k]);
      if ReachesText(keys[k], modes[k].asking, modes[k].help) then Typed(before, keys[k].scancode, keys[k].ascii) else before
  }

  /** A session after `n` keys that began in mode `start` and now is in mode `now`, if the editor is still open. */
  ghost predicate InMode(start: Mode, keys: seq<Key>, n: nat, modes: seq<Mode>, now: Mode, open: bool) {
    && n <= |keys| && IsModal(start, keys[..n], modes)
    && (open ==> if n == 0 then now == start else Follows(modes[n - 1], keys[n - 1], now))
  }

  /** Unless a NUL was in the text, it is what the keys made of the first one. */
  ghost predicate ShowsKeys(fair: bool, first: Text, keys: seq<Key>, n: nat, modes: seq<Mode>, now: Text) {
    fair ==> n <= |keys| && |modes| == n && IsText(first) && now == TypedAll(first, keys[..n], modes)
  }

  lemma NoKeys(start: Mode, fair: bool, t: Text, keys: seq<Key>)
    requires fair ==> IsText(t)
    ensures InMode(start, keys, 0, [], start, true) && ShowsKeys(fair, t, keys, 0, [], t)
  {
  }

  lemma ModeNext(start: Mode, keys: seq<Key>, n: nat, modes: seq<Mode>, m: Mode, now: Mode, open: bool)
    requires InMode(start, keys, n, modes, m, true) && n < |keys| && (open ==> Follows(m, keys[n], now))
    ensures InMode(start, keys, n + 1, modes + [m], now, open)
  {
    hide Follows;
    assert forall i | 0 <= i < n :: keys[..n + 1][i] == keys[..n][i];
  }

  lemma KeyShows(fair: bool, first: Text, keys: seq<Key>, n: nat, modes: seq<Mode>, m: Mode, before: Text, now: Text)
    requires ShowsKeys(fair, first, keys, n, modes, before) && n < |keys|
    requires fair ==> IsText(before)
    requires fair ==> now == if ReachesText(keys[n], m.asking, m.help) then Typed(before, keys[n].scancode, keys[n].ascii) else before
    ensures ShowsKeys(fair, first, keys, n + 1, modes + [m], now)
  {
    hide IsText, Typed, ReachesText;
    if fair { assert keys[..n + 1][..n] == keys[..n] && (modes + [m])[..n] == modes; }
  }

  // ---------------------------------------------------------------- the volume that the editor works on

  datatype Volume = NoVolume | Volume(img: Image, tree: Tree, here: Position)

  /** What a path names on a volume. */
  ghost function AimAt(v: Volume, path: seq<byte>): Target {
    if v.Volume? && |v.here.names| == |v.here.stack| then Resolve(v.img, v.tree.alloc, v.here, path) else NoTarget(ERR_NOT_INITIALIZED)
  }

  /** The bytes of the file that a path leads to. */
  ghost function FileIn(v: Volume, path: seq<byte>): Option<seq<byte>> {
    match AimAt(v, path)
    case NoTarget(_) => None
    case Target(d, n) => if v.Volume? then FileAt(v.img, v.tree, d, n) else None
  }

  /** At most the content of the file that the path leads to has changed. */
  ghost predicate OnlyFile(v: Volume, v': Volume, path: seq<byte>) {
    v' == v ||
    (&& v.Volume? && v'.Volume? && v'.here == v.here && AimAt(v', path) == AimAt(v, path)
     && (forall d, n | Target(d, n) != AimAt(v, path) :: FileAt(v'.img, v'.tree, d, n) == FileAt(v.img, v.tree, d, n))
     && (forall d, n :: FolderAt(v'.img, v'.tree, d, n) == FolderAt(v.img, v.tree, d, n)))
  }

  lemma OnlyFileJoin(v: Volume, v': Volume, v'': Volume, path: seq<byte>)
    requires OnlyFile(v, v', path) && OnlyFile(v', v'', path)
    ensures OnlyFile(v, v'', path)
  {
  }

  lemma OnlyFileRefl(v: Volume, path: seq<byte>)
    ensures OnlyFile(v, v, path)
  {
  }

  /** The result of fat12_write_file on a working disk. */
  ghost function WriteResult(v: Volume, path: seq<byte>, size: nat, clusterSize: nat): int {
    match AimAt(v, path)
    case NoTarget(code) => code
    case Target(d, n) => if v.Volume? then WriteOutcome(v.img, v.tree, d, n, ClustersNeeded(size, clusterSize)) else OK
  }

  /** What a successful or a failed write of a file does to the volume. */
  lemma WrittenVolume(img: Image, t: Tree, cs: nat, img': Image, t': Tree, here: Position, path: seq<byte>, content: Option<seq<byte>>)
    requires WellFormed(img, t, cs, {}) && WellFormed(img', t', cs, {}) && PositionOk(img, t, here) && |here.names| == |here.stack|
    requires AimAt(Volume(img, t, here), path).Target?
    requires var aim := AimAt(Volume(img, t, here), path);
             if content.Some? then FileChanged(img, t, img', t', aim.dir, aim.name, content) else SameFiles(img, t, img', t')
    ensures OnlyFile(Volume(img, t, here), Volume(img', t', here), path)
    ensures FileIn(Volume(img', t', here), path) == if content.Some? then content else FileIn(Volume(img, t, here), path)
  {
    hide Resolve, FileAt, FolderAt, AttrAt, Entry, WellFormed, PositionOk, Display;
    var aim := AimAt(Volume(img, t, here), path);
    if content.Some? {
      ChangedKeepsFolders(img, t, img', t', aim.dir, aim.name, content);
    } else {
      SameKeepsFolders(img, t, img', t');
    }
    ResolveSurvives(img, t, cs, img', t', here, path);
  }

  /** A file that is there can be replaced by an empty one. */
  lemma EmptyIsWritten(v: Volume, path: seq<byte>, cs: nat)
    requires FileIn(v, path).Some?
    ensures WriteResult(v, path, 0, cs) == OK
  {
  }

  class Editor {
    const driver: Fat12Driver
    /** The 16 KB buffer of commands_get_io_buffer. */
    const io: array<byte>
    const text: LineBuffer
    var filename: seq<byte>
    var active: bool
    /** NANO_PROMPT_SAVE_CONFIRM. */
    var asking: bool
    var helpVisible: bool
    ghost var origin: Origin

    ghost predicate Wired()
      reads text.rows, text.lengths
    {
      && io.Length == IO_SIZE && io != driver.fs.root && io != driver.fs.buffer && io != driver.fs.table.bytes
      && text.Shape()
    }

    /** What the kernel keeps between two calls of the file system. */
    ghost predicate DriverOk()
      reads driver, driver.fs, driver.fs.table, driver.fs.table.bytes, driver.fs.root, driver.fs.dev`medium
    {
      driver.fs.Buffers() && (driver.fs.ready ==> driver.Ready())
    }

    ghost function OnDisk(): Volume
      reads driver, driver.fs, driver.fs.table, driver.fs.table.bytes, driver.fs.root, driver.fs.dev`medium
    {
      if driver.fs.Mounted() then Volume(driver.fs.View(), driver.fs.tree, driver.Here()) else NoVolume
    }

    /** The bytes of the file that a path leads to. */
    ghost function FileNamed(path: seq<byte>): Option<seq<byte>>
      reads driver, driver.fs, driver.fs.table, driver.fs.table.bytes, driver.fs.root, driver.fs.dev`medium
    {
      FileIn(OnDisk(), path)
    }

    /** A buffer without unsaved edits shows what its origin says. */
    ghost predicate InStep()
      requires text.Shape() && text.total <= MAX_LINES
      reads driver, driver.fs, driver.fs.table, driver.fs.table.bytes, driver.fs.root, driver.fs.dev`medium
      reads `filename, `origin, text, text.rows, text.lengths
    {
      var file := FileNamed(filename);
      !text.dirty ==>
        match origin
        case Fresh => text.Lines() == [[]]
        case Loaded => file.Some? && 0 < |file.value| < IO_SIZE && text.Lines() == Parse(file.value)
        case Saved => file == Some(Serialise(text.Lines()))
    }

    /** The editor is open and its clean text is in step with the volume. */
    ghost predicate Good()
      reads driver, driver.fs, driver.fs.table, driver.fs.table.bytes, driver.fs.root, driver.fs.dev`medium
      reads `filename, `origin, text, text.rows, text.lengths
    {
      Wired() && DriverOk() && text.Sane() && InStep()
    }

    constructor (driver: Fat12Driver, io: array<byte>)
      requires io.Length == IO_SIZE && io != driver.fs.root && io != driver.fs.buffer && io != driver.fs.table.bytes
      ensures Wired() && !active && this.driver == driver && this.io == io
    {
      this.driver, this.io := driver, io;
      text := new LineBuffer();
      filename, active, asking, helpVisible, origin := [], false, false, false, Fresh;
    }

    /** A clean buffer that was read from or written to a file is what opening that file again shows. The one
        exception is a text that was too long to be written in full; even then the file can be opened. */
    lemma CleanMeansSaved()
      requires Good() && text.Valid() && !text.dirty && origin != Fresh
      ensures var file := FileNamed(filename);
              && file.Some? && 0 < |file.value| < IO_SIZE
              && (origin == Loaded ==> Shown(file.value) == text.Lines())
              && (origin == Saved ==> (Shown(file.value) == text.Lines() <==> |NanoText.Ended(text.Lines())| < IO_SIZE))
    {
      hide FileAt, FileSystem.View, FileSystem.Synced, WellFormed;
      text.ContentIsText();
      SaveThenLoad(text.Lines());
      SavedIsNotEmpty(text.Lines());
    }

    /** fat12_read_file into the I/O buffer. */
    method ReadInto(path: seq<byte>) returns (result: int, size: nat)
      requires Wired() && DriverOk()
      modifies io, driver.fs.dev`clock, driver.fs.buffer
      ensures Wired() && DriverOk() && OnDisk() == old(OnDisk()) && driver.fs.dev.clock >= old(driver.fs.dev.clock)
      ensures result == OK ==> size < IO_SIZE && FileNamed(path) == Some(io[..size])
      ensures result != OK && driver.fs.ready && driver.fs.dev.FineSince(old(driver.fs.dev.clock)) ==>
                FileNamed(path).None? || |FileNamed(path).value| >= IO_SIZE
    {
      hide Resolve, FileSystem.View, FileSystem.Synced, WellFormed, LineBuffer.Shape, CwdText;
      result, size := driver.ReadFile(path, io, IO_SIZE - 1);
      if result == OK { assert driver.fs.Mounted(); }
    }

    /** The two branches of nano_init_editor behind the read. */
    method Fill(found: bool, size: nat)
      requires Wired() && text.cursorX == 0 && text.cursorY == 0 && (found ==> size <= io.Length)
      modifies text`total, text.rows, text.lengths
      ensures Wired() && text.Sane() && (text.Lines() != [] <==> text.Valid())
      ensures text.Lines() == if found then Parse(io[..size]) else [[]]
    {
      if found { text.Load(io, size); } else { text.StartEmpty(); }
    }

    /** nano_init_editor. Exactly a file of nothing but carriage returns leaves the buffer without a line. */
    method Open(path: seq<byte>)
      requires Wired() && DriverOk()
      modifies this, text, text.rows, text.lengths, io, driver.fs.dev`clock, driver.fs.buffer
      ensures Good() && active && filename == path && !text.dirty && !asking && !helpVisible
      ensures text.cursorX == 0 && text.cursorY == 0
      ensures OnDisk() == old(OnDisk()) && origin != Saved && driver.fs.dev.clock >= old(driver.fs.dev.clock)
      ensures origin == Fresh && driver.fs.ready && driver.fs.dev.FineSince(old(driver.fs.dev.clock)) ==>
                var file := FileNamed(path); file.None? || file.value == [] || |file.value| >= IO_SIZE
      ensures text.Valid() <==> text.Lines() != []
      ensures text.Lines() == [] <==>
                origin == Loaded && var file := FileNamed(path); file.Some? && forall i | 0 <= i < |file.value| :: file.value[i] == CR
    {
      hide DriverOk, FileSystem.Mounted, Parse, Serialise, LineBuffer.Shape, LineBuffer.Line, LineBuffer.Lines,
           LineBuffer.Valid, LineBuffer.Sane, FileIn, OnDisk;
      StartOver(path);
      var result, size := ReadInto(path);
      ghost var file := FileNamed(path);
      var found := result == OK && size > 0;
      Fill(found, size);
      origin := if found then Loaded else Fresh;
      assert FileNamed(path) == file;
      if found { ParsesToNothing(io[..size]); }
    }

    /** What nano_init_editor resets before it reads the file. */
    method StartOver(path: seq<byte>)
      requires Wired() && DriverOk()
      modifies this, text, text.rows, text.lengths
      ensures Wired() && DriverOk() && OnDisk() == old(OnDisk())
      ensures active && filename == path && !text.dirty && !asking && !helpVisible && text.cursorX == 0 && text.cursorY == 0
    {
      hide DriverOk, OnDisk;
      filename, active, asking, helpVisible := path, true, false, false;
      text.Reset();
    }

    // ---------------------------------------------------------------- saving and leaving

    /** fat12_write_file of the first `size` bytes of the I/O buffer under the editor's name. */
    method WriteOut(size: nat) returns (result: int, kept: bool)
      requires Wired() && DriverOk() && size < IO_SIZE
      modifies driver.fs.dev, driver.fs.table`dirty, driver.fs.table.bytes, driver.fs.buffer, driver.fs.root,
               driver.fs`rootDirty, driver.fs`mirrored, driver.fs`tree
      ensures Wired() && (kept ==> DriverOk()) && (kept || result == ERR_IO) && driver.fs.dev.clock >= old(driver.fs.dev.clock)
      ensures result == ERR_IO ==> !driver.fs.dev.FineSince(old(driver.fs.dev.clock))
      ensures kept ==> OnlyFile(old(OnDisk()), OnDisk(), filename)
      ensures kept ==> FileNamed(filename) == if result == OK then Some(io[..size]) else old(FileNamed(filename))
      ensures old(DriverOk() && driver.fs.ready) && driver.fs.dev.FineSince(old(driver.fs.dev.clock)) ==>
                result == WriteResult(old(OnDisk()), filename, size, driver.fs.geo.clusterSize)
    {
      hide Resolve, FileSystem.View, WellFormed, LineBuffer.Shape, PositionOk, CwdText, OnlyFile, FileChanged, SameFiles,
           FileSystem.Buffers;
      ghost var before, ready := OnDisk(), driver.fs.ready;
      ghost var target;
      if ready { driver.ReadyParts(); }
      result, kept, target := driver.WriteFile(filename, io[..size]);
      kept := kept || result == ERR_NOT_INITIALIZED;
      OnlyFileRefl(before, filename);
      if ready && kept {
        if target.Target? {
          WrittenVolume(before.img, before.tree, driver.fs.geo.clusterSize, driver.fs.View(), driver.fs.tree, driver.Here(), filename,
                        if result == OK then Some(io[..size]) else None);
        }
      }
    }

    /** nano_save_file. Nothing is written for a clean buffer. A failure leaves the edits marked as unsaved, and as long as the
        volume is whole the file as it was; no other file changes either way. */
    method Save() returns (ok: bool, ioError: bool, kept: bool)
      requires Good()
      modifies text`dirty, `origin, io, driver.fs.dev, driver.fs.table`dirty, driver.fs.table.bytes, driver.fs.buffer, driver.fs.root,
               driver.fs`rootDirty, driver.fs`mirrored, driver.fs`tree
      ensures Wired() && text.Sane() && text.Content() == old(text.Content()) && driver.fs.dev.clock >= old(driver.fs.dev.clock)
      ensures (ok <==> !text.dirty) && (ioError ==> !ok && !driver.fs.dev.FineSince(old(driver.fs.dev.clock)))
      ensures (kept ==> Good()) && (kept || (ioError && !ok))
      ensures kept ==> OnlyFile(old(OnDisk()), OnDisk(), filename)
      ensures ok && old(text.dirty) ==> FileNamed(filename) == Some(Serialise(text.Lines()))
      ensures kept && !ok ==> FileNamed(filename) == old(FileNamed(filename))
      ensures !old(text.dirty) ==> ok && kept && OnDisk() == old(OnDisk()) && origin == old(origin)
      ensures old(text.dirty && driver.fs.ready) && driver.fs.dev.FineSince(old(driver.fs.dev.clock)) ==>
                (ok <==> WriteResult(old(OnDisk()), filename, |Serialise(text.Lines())|, driver.fs.geo.clusterSize) == OK)
    {
      hide DriverOk, Serialise, LineBuffer.Sane, FileIn, OnDisk, OnlyFile;
      OnlyFileRefl(OnDisk(), filename);
      if !text.dirty { return true, false, true; }
      SaneShape();
      ghost var before := OnDisk();
      var size := text.Serialise(io);
      assert OnDisk() == before && DriverOk();
      var result;
      result, kept := WriteOut(size);
      ok, ioError := result == OK, result == ERR_IO;
      if ok {
        text.dirty := false;
        origin := Saved;
      }
    }

    lemma SaneShape()
      requires text.Sane()
      ensures text.Shape() && text.total <= MAX_LINES
    {
    }

    /** nano_exit_editor. Giving up the edits leaves the volume alone. */
    method Exit(save: bool) returns (ioError: bool, kept: bool)
      requires Good() && active
      modifies text`dirty, `origin, `active, `asking, `helpVisible, io, driver.fs.dev, driver.fs.table`dirty, driver.fs.table.bytes,
               driver.fs.buffer, driver.fs.root, driver.fs`rootDirty, driver.fs`mirrored, driver.fs`tree
      ensures Wired() && text.Sane() && text.Content() == old(text.Content()) && driver.fs.dev.clock >= old(driver.fs.dev.clock)
      ensures ioError ==> active && text.dirty && !driver.fs.dev.FineSince(old(driver.fs.dev.clock))
      ensures (kept ==> DriverOk()) && (kept || ioError)
      ensures kept ==> OnlyFile(old(OnDisk()), OnDisk(), filename)
      ensures active ==> save && text.dirty && (kept ==> InStep()) && asking == old(asking) && helpVisible == old(helpVisible)
      ensures active && kept ==> FileNamed(filename) == old(FileNamed(filename))
      ensures !active && save && old(text.dirty) ==> FileNamed(filename) == Some(Serialise(text.Lines()))
      ensures !active && (save || !old(text.dirty)) ==> kept && !text.dirty && InStep()
      ensures !old(text.dirty) || !save ==> !active && OnDisk() == old(OnDisk())
    {
      hide DriverOk, FileSystem.Mounted, Serialise, LineBuffer.Shape, LineBuffer.Line, LineBuffer.Lines, FileIn, OnDisk,
           OnlyFile, LineBuffer.Sane, WriteResult;
      OnlyFileRefl(OnDisk(), filename);
      ioError, kept := false, true;
      if save && text.dirty {
        var ok;
        ok, ioError, kept := Save();
        if !ok { return; }
        ioError := false;
      } else if !save {
        text.dirty := false;
      }
      active, asking, helpVisible := false, false, false;
    }

    // ---------------------------------------------------------------- the keys

    function Now(): Mode
      reads `asking, `helpVisible, text`dirty
    {
      Mode(asking, helpVisible, text.dirty)
    }

    /** nano_handle_scancode. Edits are given up only by a key that discards them, which leaves the volume alone; closing in any
        other way means that the text is in step with the volume. A save that fails leaves the editor open and the edits
        unsaved. No other file changes. */
    method HandleKey(key: Key) returns (ioError: bool, kept: bool)
      requires Good() && active && Reaches(key, asking, helpVisible, text.Defined(key.scancode))
      modifies this, text, text.rows, text.lengths, io, driver.fs.dev, driver.fs.table`dirty, driver.fs.table.bytes,
               driver.fs.buffer, driver.fs.root, driver.fs`rootDirty, driver.fs`mirrored, driver.fs`tree
      ensures Wired() && text.Sane() && filename == old(filename) && driver.fs.dev.clock >= old(driver.fs.dev.clock)
      ensures ioError ==> active && text.dirty && !driver.fs.dev.FineSince(old(driver.fs.dev.clock))
      ensures (kept ==> DriverOk()) && (kept || ioError)
      ensures kept && active ==> Good()
      ensures kept ==> OnlyFile(old(OnDisk()), OnDisk(), filename)
      ensures !active ==> GivesUp(key, old(Now())) || (!text.dirty && Good())
      ensures GivesUp(key, old(Now())) ==> !active && OnDisk() == old(OnDisk())
      ensures kept && (ioError || !(old(text.dirty) && !text.dirty)) ==> FileNamed(filename) == old(FileNamed(filename))
      ensures old(!helpVisible && !asking) && Commands(key, KEY_X) ==>
                active == old(text.dirty) && text.dirty == old(text.dirty) && kept && OnDisk() == old(OnDisk())
      ensures old(!helpVisible && !asking) && !key.isRelease && IsCommand(key) && key.scancode != KEY_X ==> active
      ensures active ==> Follows(old(Now()), key, Now())
      ensures old(helpVisible) || key.isRelease || (old(asking) && !Answers(key)) ==>
                && active && kept && OnDisk() == old(OnDisk()) && text.dirty == old(text.dirty)
                && helpVisible == (old(helpVisible) && key.isRelease) && asking == old(asking)
      ensures old(text.dirty) && !text.dirty && !GivesUp(key, old(Now())) ==>
                FileNamed(filename) == Some(Serialise(text.Lines()))
      ensures old(!helpVisible && !asking && text.dirty && driver.fs.ready) && Commands(key, KEY_S)
              && driver.fs.dev.FineSince(old(driver.fs.dev.clock)) ==>
                (!text.dirty <==> WriteResult(old(OnDisk()), filename, |Serialise(text.Lines())|, driver.fs.geo.clusterSize) == OK)
      ensures old(!helpVisible && asking) && SaysYes(key) ==> (active <==> text.dirty) && (!old(text.dirty) ==> !active)
      ensures old(!helpVisible && asking && text.dirty && driver.fs.ready) && SaysYes(key)
              && driver.fs.dev.FineSince(old(driver.fs.dev.clock)) ==>
                (!active <==> WriteResult(old(OnDisk()), filename, |Serialise(text.Lines())|, driver.fs.geo.clusterSize) == OK)
      ensures !ReachesText(key, old(asking), old(helpVisible)) ==> text.Content() == old(text.Content())
      ensures old(text.Valid()) ==> text.Valid() && IsText(old(text.Content()))
      ensures old(text.Valid() && AllNulFree(text.Lines())) ==> AllNulFree(text.Lines())
      ensures old(text.Valid() && AllNulFree(text.Lines())) && ReachesText(key, old(asking), old(helpVisible)) ==>
                text.Content() == Typed(old(text.Content()), key.scancode, key.ascii)
      ensures !old(text.Valid()) && !Editing(key.scancode) ==> text.Lines() == old(text.Lines())
      ensures ReachesText(key, old(asking), old(helpVisible)) ==>
                kept && active && OnDisk() == old(OnDisk()) && (IsCharacter(key.scancode, key.ascii) ==> text.dirty)
    {
      hide DriverOk, FileSystem.Mounted, Serialise, LineBuffer.Shape, LineBuffer.Line, LineBuffer.Lines, Typed, IsText,
           AllNulFree, FileIn, OnDisk, OnlyFile, WriteResult, LineBuffer.Sane;
      if text.Valid() { text.ContentIsText(); }
      OnlyFileRefl(OnDisk(), filename);
      ioError, kept := false, true;
      if helpVisible {
        if !key.isRelease { helpVisible := false; }
        return;
      }
      if asking {
        ioError, kept := Answer(key);
        return;
      }
      if key.isRelease { return; }
      if IsCommand(key) {
        ioError, kept := Obey(key);
        return;
      }
      if key.scancode == KEY_ESCAPE {
        ioError, kept := Exit(false);
        return;
      }
      text.Type(key.scancode, key.ascii);
      SaneShape();
    }

    /** The branch of nano_handle_scancode for the question whether to save. */
    method Answer(key: Key) returns (ioError: bool, kept: bool)
      requires Good() && active && asking
      modifies text`dirty, `origin, `active, `asking, `helpVisible, io, driver.fs.dev, driver.fs.table`dirty, driver.fs.table.bytes,
               driver.fs.buffer, driver.fs.root, driver.fs`rootDirty, driver.fs`mirrored, driver.fs`tree
      ensures Wired() && text.Sane() && text.Content() == old(text.Content()) && driver.fs.dev.clock >= old(driver.fs.dev.clock)
      ensures ioError ==> active && text.dirty && !driver.fs.dev.FineSince(old(driver.fs.dev.clock))
      ensures (kept ==> DriverOk()) && (kept || ioError)
      ensures kept && active ==> Good()
      ensures kept ==> OnlyFile(old(OnDisk()), OnDisk(), filename)
      ensures !active ==> Discards(key, true) || (!text.dirty && Good())
      ensures Discards(key, true) ==> !active && OnDisk() == old(OnDisk())
      ensures kept && (ioError || !(old(text.dirty) && !text.dirty)) ==> FileNamed(filename) == old(FileNamed(filename))
      ensures active ==> helpVisible == old(helpVisible) && asking == !Answers(key) && (Answers(key) ==> text.dirty)
      ensures !Answers(key) ==> active && kept && text.dirty == old(text.dirty) && OnDisk() == old(OnDisk())
      ensures SaysYes(key) ==> (active <==> text.dirty) && (!old(text.dirty) ==> !active)
      ensures SaysYes(key) && old(text.dirty && driver.fs.ready) && driver.fs.dev.FineSince(old(driver.fs.dev.clock)) ==>
                (!active <==> WriteResult(old(OnDisk()), filename, |Serialise(text.Lines())|, driver.fs.geo.clusterSize) == OK)
      ensures old(text.dirty) && !text.dirty && !Discards(key, true) ==> FileNamed(filename) == Some(Serialise(text.Lines()))
    {
      hide DriverOk, LineBuffer.Shape, LineBuffer.Line, LineBuffer.Lines, FileIn, OnDisk, LineBuffer.Sane, WriteResult;
      OnlyFileRefl(OnDisk(), filename);
      ioError, kept := false, true;
      if key.isRelease { return; }
      if key.scancode == KEY_ESCAPE {
        asking := false;
        ioError, kept := Exit(false);
        return;
      }
      if key.ascii == LETTER_Y {
        asking := false;
        var ok;
        ok, ioError, kept := Save();
        if !ok { return; }
        ghost var saved := OnDisk();
        ioError, kept := Exit(true);
        OnlyFileJoin(old(OnDisk()), saved, OnDisk(), filename);
      } else if key.ascii == LETTER_N {
        asking := false;
        ioError, kept := Exit(false);
      }
    }

    /** The commands of the Ctrl key. */
    method Obey(key: Key) returns (ioError: bool, kept: bool)
      requires Good() && active && IsCommand(key)
      modifies text`dirty, `origin, `active, `asking, `helpVisible, io, driver.fs.dev, driver.fs.table`dirty, driver.fs.table.bytes,
               driver.fs.buffer, driver.fs.root, driver.fs`rootDirty, driver.fs`mirrored, driver.fs`tree
      ensures Wired() && text.Sane() && text.Content() == old(text.Content()) && driver.fs.dev.clock >= old(driver.fs.dev.clock)
      ensures ioError ==> active && text.dirty && !driver.fs.dev.FineSince(old(driver.fs.dev.clock))
      ensures (kept ==> DriverOk()) && (kept || ioError)
      ensures kept && active ==> Good()
      ensures kept ==> OnlyFile(old(OnDisk()), OnDisk(), filename)
      ensures kept && (ioError || !(old(text.dirty) && !text.dirty)) ==> FileNamed(filename) == old(FileNamed(filename))
      ensures !active ==> !text.dirty && Good() && key.scancode == KEY_X
      ensures key.scancode == KEY_X ==> active == old(text.dirty)
      ensures active ==> helpVisible == (old(helpVisible) || key.scancode == KEY_H)
      ensures active ==> asking == (old(asking) || key.scancode == KEY_X)
      ensures key.scancode != KEY_S ==> text.dirty == old(text.dirty) && OnDisk() == old(OnDisk()) && kept
      ensures old(text.dirty) && !text.dirty ==> FileNamed(filename) == Some(Serialise(text.Lines()))
      ensures key.scancode == KEY_S && old(text.dirty && driver.fs.ready) && driver.fs.dev.FineSince(old(driver.fs.dev.clock)) ==>
                (!text.dirty <==> WriteResult(old(OnDisk()), filename, |Serialise(text.Lines())|, driver.fs.geo.clusterSize) == OK)
    {
      hide DriverOk, LineBuffer.Shape, LineBuffer.Lines, FileIn, OnDisk, OnlyFile, WriteResult;
      OnlyFileRefl(OnDisk(), filename);
      ioError, kept := false, true;
      if key.scancode == KEY_S {
        var ok;
        ok, ioError, kept := Save();
      } else if key.scancode == KEY_X {
        if text.dirty {
          asking := true;
        } else {
          ioError, kept := Exit(true);
        }
      } else if key.scancode == KEY_H {
        helpVisible := true;
      }
    }

    lemma SessionTold(start: Mode, fair: bool, first: Text, keys: seq<Key>, n: nat, modes: seq<Mode>)
      requires text.Shape() && text.total <= MAX_LINES
      requires InMode(start, keys, n, modes, Now(), active) && ShowsKeys(fair, first, keys, n, modes, text.Content())
      ensures n <= |keys| && IsModal(start, keys[..n], modes)
      ensures fair ==> IsText(first) && text.Content() == TypedAll(first, keys[..n], modes)
    {
    }

    /** Any sequence of keys, as long as the editor is open, the volume is whole, and the next key has a meaning; `modes` tells
        where each key went. The text is what the keys that reached it make of it. While the editor is open its clean text is in
        step with the volume; when it closes, either everything is saved or the last key gave up the edits: Esc, or n to the
        question. Failed saves do not end the session. No file but the editor's ever changes. */
    method Session(keys: seq<Key>) returns (n: nat, kept: bool, ghost modes: seq<Mode>)
      requires Good() && active
      modifies this, text, text.rows, text.lengths, io, driver.fs.dev, driver.fs.table`dirty, driver.fs.table.bytes,
               driver.fs.buffer, driver.fs.root, driver.fs`rootDirty, driver.fs`mirrored, driver.fs`tree
      ensures n <= |keys| && Wired() && text.Sane() && filename == old(filename)
      ensures !kept ==> active && text.dirty && !driver.fs.dev.FineSince(old(driver.fs.dev.clock))
      ensures kept && active ==> Good() && (n < |keys| ==> !Reaches(keys[n], asking, helpVisible, text.Defined(keys[n].scancode)))
      ensures |modes| == n && (kept && !active ==> n > 0 && (GivesUp(keys[n - 1], modes[n - 1]) || (!text.dirty && Good())))
      ensures kept ==> OnlyFile(old(OnDisk()), OnDisk(), filename)
      ensures old(text.Valid()) ==> text.Valid() && (kept && active ==> n == |keys|)
      ensures IsModal(old(Now()), keys[..n], modes)
      ensures old(text.Valid() && AllNulFree(text.Lines())) ==>
                && AllNulFree(text.Lines()) && IsText(old(text.Content()))
                && text.Content() == TypedAll(old(text.Content()), keys[..n], modes)
    {
      hide DriverOk, FileSystem.Mounted, Serialise, LineBuffer.Shape, LineBuffer.Line, LineBuffer.Lines, Typed, IsText,
           AllNulFree, InStep, FileIn, OnDisk, OnlyFile, WriteResult, LineBuffer.Sane, TypedAll, IsModal,
           InMode, ShowsKeys, Follows, LineBuffer.Content;
      n, kept, modes := 0, true, [];
      SaneShape();
      ghost var start, first, fair := Now(), text.Content(), text.Valid() && AllNulFree(text.Lines());
      if text.Valid() { text.ContentIsText(); }
      NoKeys(start, fair, first, keys);
      OnlyFileRefl(OnDisk(), filename);
      while n < |keys| && active && kept
        invariant n <= |keys| && Wired() && text.Sane() && text.total <= MAX_LINES && filename == old(filename)
        invariant driver.fs.dev.clock >= old(driver.fs.dev.clock)
        invariant !kept ==> active && text.dirty && !driver.fs.dev.FineSince(old(driver.fs.dev.clock))
        invariant kept && active ==> Good()
        invariant |modes| == n && (kept && !active ==> n > 0 && (GivesUp(keys[n - 1], modes[n - 1]) || (!text.dirty && Good())))
        invariant kept ==> OnlyFile(old(OnDisk()), OnDisk(), filename)
        invariant old(text.Valid()) ==> text.Valid()
        invariant InMode(start, keys, n, modes, Now(), active) && ShowsKeys(fair, first, keys, n, modes, text.Content())
        invariant fair ==> AllNulFree(text.Lines()) && text.Valid()
        decreases |keys| - n
      {
        if !Reaches(keys[n], asking, helpVisible, text.Defined(keys[n].scancode)) {
          SessionTold(start, fair, first, keys, n, modes);
          return;
        }
        ghost var before, mode := OnDisk(), Now();
        ghost var shown := text.Content();
        var ioError;
        ioError, kept := HandleKey(keys[n]);
        SaneShape();
        ModeNext(start, keys, n, modes, mode, Now(), active);
        KeyShows(fair, first, keys, n, modes, mode, shown, text.Content());
        if kept { OnlyFileJoin(old(OnDisk()), before, OnDisk(), filename); }
        n, modes := n + 1, modes + [mode];
      }
      SessionTold(start, fair, first, keys, n, modes);
    }

    /** Where the text does get lost without a key that gives it up: in a file of carriage returns only, which opens without
        a line, a typed character marks the text as edited and yet is in no line of it. Ctrl+S then writes an empty file, and
        Ctrl+X closes the editor without a question. Open says that these files are the only ones. */
    method LosesTyping(path: seq<byte>, key: Key)
      requires Wired() && DriverOk() && driver.fs.ready && driver.fs.dev.Works()
      requires var file := FileNamed(path);
               file.Some? && 0 < |file.value| < IO_SIZE && forall i | 0 <= i < |file.value| :: file.value[i] == CR
      requires !key.isRelease && !key.ctrl && IsCharacter(key.scancode, key.ascii)
      modifies this, text, text.rows, text.lengths, io, driver.fs.dev, driver.fs.table`dirty, driver.fs.table.bytes, driver.fs.buffer,
               driver.fs.root, driver.fs`rootDirty, driver.fs`mirrored, driver.fs`tree
      ensures !active && !text.dirty && text.Shape() && text.total == 0 && FileNamed(path) == Some([])
    {
      hide DriverOk, Parse, LineBuffer.Shape, LineBuffer.Line, LineBuffer.Lines, FileIn, OnDisk, OnlyFile, WriteResult;
      ghost var before := OnDisk();
      EmptyIsWritten(before, path, driver.fs.geo.clusterSize);
      Open(path);
      assert text.Lines() == [];
      var ioError, kept := HandleKey(key);
      assert text.dirty && text.Lines() == [];
      assert OnDisk() == before;
      SerialiseNothing();
      ioError, kept := HandleKey(Key(0x1F, false, true, NUL));
      assert !text.dirty && text.Lines() == [];
      ioError, kept := HandleKey(Key(0x2D, false, true, NUL));
    }

    /** Ctrl+X and `y` on a text with unsaved edits: it is in the file and the editor is closed, as long as the disk works and
        has room for it. */
    method SaveAndClose()
      requires Good() && active && !asking && !helpVisible && text.dirty && driver.fs.ready && driver.fs.dev.Works()
      requires WriteResult(OnDisk(), filename, |Serialise(text.Lines())|, driver.fs.geo.clusterSize) == OK
      modifies this, text, text.rows, text.lengths, io, driver.fs.dev, driver.fs.table`dirty, driver.fs.table.bytes, driver.fs.buffer,
               driver.fs.root, driver.fs`rootDirty, driver.fs`mirrored, driver.fs`tree
      ensures !active && Good() && !text.dirty && filename == old(filename) && text.Lines() == old(text.Lines())
      ensures FileNamed(filename) == Some(Serialise(text.Lines())) && OnlyFile(old(OnDisk()), OnDisk(), filename)
    {
      hide DriverOk, Serialise, LineBuffer.Shape, LineBuffer.Line, LineBuffer.Lines, FileIn, OnDisk, OnlyFile, WriteResult;
      var ioError, kept := HandleKey(Key(0x2D, false, true, NUL));
      SaneShape();
      ioError, kept := HandleKey(Key(0x15, false, false, 121));
    }

    /** Opening the file of a clean buffer again shows the same lines, as long as they all fit. */
    method Reopen()
      requires Good() && text.Valid() && !text.dirty && origin != Fresh && driver.fs.ready && driver.fs.dev.Works()
      requires origin == Saved ==> |NanoText.Ended(text.Lines())| < IO_SIZE
      modifies this, text, text.rows, text.lengths, io, driver.fs.dev`clock, driver.fs.buffer
      ensures Good() && active && origin == Loaded && text.Lines() == old(text.Lines())
    {
      hide OnDisk, DriverOk, LineBuffer.Lines;
      CleanMeansSaved();
      ghost var file := FileNamed(filename);
      Open(filename);
    }
  }

  lemma {:induction false} SavedIsNotEmpty(lines: seq<Line>)
    requires lines != []
    ensures Serialise(lines) != []
  {
    if |lines| > 1 { SavedIsNotEmpty(lines[..|lines| - 1]); }
  }
}
