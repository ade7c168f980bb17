/** The text buffer of the nano editor as a value: what its keys do to a list of lines, to the flat text that the
    lines stand for, and to the file. */
module NanoText {
  import opened Bytes

  const MAX_LINES: nat := 1000
  const LINE_SIZE: nat := 200
  /** The longest line: a row keeps one byte for its NUL. */
  const MAX_LENGTH: nat := LINE_SIZE - 1
  const IO_SIZE: nat := 16384
  const NUL: byte := 0
  const NL: byte := 10
  const CR: byte := 13

  type Line = seq<byte>

  /** The lines and the cursor, at column `x` of line `y`. */
  datatype Text = Text(lines: seq<Line>, x: nat, y: nat)

  predicate IsPlain(c: byte) {
    c != NL && c != CR
  }

  ghost predicate IsLine(l: Line) {
    |l| <= MAX_LENGTH && forall j | 0 <= j < |l| :: IsPlain(l[j])
  }

  ghost predicate AreLines(lines: seq<Line>) {
    |lines| <= MAX_LINES && forall i | 0 <= i < |lines| :: IsLine(lines[i])
  }

  ghost predicate IsText(t: Text) {
    AreLines(t.lines) && t.y < |t.lines| && t.x <= |t.lines[t.y]|
  }

  function First(l: Line, n: nat): Line {
    if |l| <= n then l else l[..n]
  }

  // ---------------------------------------------------------------- the editing keys

  /** nano_insert_char: in a full line the last character gives way; at its very end nothing is inserted. */
  ghost function InsertChar(t: Text, c: byte): (r: Text)
    requires IsText(t)
  {
    var line := t.lines[t.y];
    if t.x == MAX_LENGTH then t
    else t.(lines := t.lines[t.y := First(line[..t.x] + [c] + line[t.x..], MAX_LENGTH)], x := t.x + 1)
  }

  /** Two neighbouring lines fit into one row. */
  ghost predicate Joinable(t: Text, i: nat) {
    i + 1 < |t.lines| && |t.lines[i]| + |t.lines[i + 1]| < LINE_SIZE
  }

  ghost function Joined(lines: seq<Line>, i: nat): seq<Line>
    requires i + 1 < |lines|
  {
    lines[..i] + [lines[i] + lines[i + 1]] + lines[i + 2..]
  }

  /** nano_handle_backspace. */
  ghost function Backspace(t: Text): (r: Text)
    requires IsText(t)
  {
    var line := t.lines[t.y];
    if t.x > 0 then t.(lines := t.lines[t.y := line[..t.x - 1] + line[t.x..]], x := t.x - 1)
    else if t.y > 0 && Joinable(t, t.y - 1) then Text(Joined(t.lines, t.y - 1), |t.lines[t.y - 1]|, t.y - 1)
    else t
  }

  /** nano_handle_delete. */
  ghost function Delete(t: Text): (r: Text)
    requires IsText(t)
  {
    var line := t.lines[t.y];
    if t.x < |line| then t.(lines := t.lines[t.y := line[..t.x] + line[t.x + 1..]])
    else if Joinable(t, t.y) then t.(lines := Joined(t.lines, t.y))
    else t
  }

  /** nano_handle_enter. */
  ghost function Enter(t: Text): (r: Text)
    requires IsText(t)
  {
    var line := t.lines[t.y];
    if |t.lines| >= MAX_LINES then t
    else Text(t.lines[..t.y] + [line[..t.x], line[t.x..]] + t.lines[t.y + 1..], 0, t.y + 1)
  }

  // ---------------------------------------------------------------- the flat text

  /** The lines, each ended by a newline. */
  ghost function Ended(lines: seq<Line>): seq<byte> {
    if lines == [] then [] else Ended(lines[..|lines| - 1]) + lines[|lines| - 1] + [NL]
  }

  /** The lines joined by newlines. */
  ghost function Flat(lines: seq<Line>): seq<byte>
    requires lines != []
  {
    Ended(lines)[..|Ended(lines)| - 1]
  }

  /** The cursor as an offset into the flat text. */
  ghost function Offset(t: Text): nat
    requires t.y < |t.lines|
  {
    |Ended(t.lines[..t.y])| + t.x
  }

  ghost function Inserted(s: seq<byte>, o: nat, c: byte): seq<byte>
    requires o <= |s|
  {
    s[..o] + [c] + s[o..]
  }

  ghost function Removed(s: seq<byte>, o: nat): seq<byte>
    requires o < |s|
  {
    s[..o] + s[o + 1..]
  }

  lemma {:induction false} EndedJoin(a: seq<Line>, b: seq<Line>)
    ensures Ended(a + b) == Ended(a) + Ended(b)
  {
    if b == [] {
      assert a + b == a;
    } else {
      var rest, last := b[..|b| - 1], b[|b| - 1];
      EndedJoin(a, rest);
      assert (a + b)[..|a + b| - 1] == a + rest;
      assert Ended(a) + Ended(rest) + last + [NL] == Ended(a) + (Ended(rest) + last + [NL]);
    }
  }

  lemma EndedOne(l: Line)
    ensures Ended([l]) == l + [NL]
  {
    assert [l][..0] == [];
  }

  /** The flat text around line `y`. */
  lemma EndedAround(lines: seq<Line>, y: nat)
    requires y < |lines|
    ensures Ended(lines) == Ended(lines[..y]) + lines[y] + [NL] + Ended(lines[y + 1..])
  {
    assert lines == lines[..y + 1] + lines[y + 1..];
    EndedJoin(lines[..y + 1], lines[y + 1..]);
    EndedNext(lines, y);
  }

  lemma EndedNext(lines: seq<Line>, y: nat)
    requires y < |lines|
    ensures Ended(lines[..y + 1]) == Ended(lines[..y]) + lines[y] + [NL]
  {
    assert lines[..y + 1][..y] == lines[..y];
  }

  lemma EndedNothing()
    ensures Ended([]) == []
  {
  }

  /** The flat text around lines `y` and `y + 1`. */
  lemma EndedAroundTwo(lines: seq<Line>, y: nat)
    requires y + 1 < |lines|
    ensures Ended(lines) == Ended(lines[..y]) + lines[y] + [NL] + lines[y + 1] + [NL] + Ended(lines[y + 2..])
  {
    hide Ended;
    var a, b := lines[..y + 2], lines[y + 2..];
    assert lines == a + b;
    EndedJoin(a, b);
    EndedNext(lines, y + 1);
    EndedNext(lines, y);
  }

  lemma EndedReplaced(lines: seq<Line>, y: nat, l: Line)
    requires y < |lines|
    ensures Ended(lines[y := l]) == Ended(lines[..y]) + l + [NL] + Ended(lines[y + 1..])
  {
    EndedAround(lines[y := l], y);
    assert lines[y := l][..y] == lines[..y] && lines[y := l][y + 1..] == lines[y + 1..];
  }

  lemma OffsetInFlat(t: Text)
    requires IsText(t)
    ensures Offset(t) <= |Flat(t.lines)|
    ensures Offset(t) == |Flat(t.lines)| <==> t.y == |t.lines| - 1 && t.x == |t.lines[t.y]|
    ensures Offset(t) == 0 <==> t.x == 0 && t.y == 0
  {
    EndedAround(t.lines, t.y);
    EndedNothing();
    if t.y > 0 { EndedNext(t.lines, t.y - 1); }
    if t.y + 1 < |t.lines| { EndedAround(t.lines[t.y + 1..], 0); }
  }

  /** The line under the cursor grows by one character, in the lines and in the flat text. */
  lemma GrownLine(t: Text, c: byte)
    requires IsText(t)
    ensures var line := t.lines[t.y];
            var more := line[..t.x] + [c] + line[t.x..];
            && Offset(t) <= |Flat(t.lines)| && Flat(t.lines[t.y := more]) == Inserted(Flat(t.lines), Offset(t), c)
  {
    hide Ended;
    OffsetInFlat(t);
    var line := t.lines[t.y];
    var more := line[..t.x] + [c] + line[t.x..];
    EndedAround(t.lines, t.y);
    EndedReplaced(t.lines, t.y, more);
    InsertedInside(Ended(t.lines[..t.y]), line, Ended(t.lines[t.y + 1..]), t.x, c);
  }

  /** A line loses a character, in the lines and in the flat text. */
  lemma ShrunkLine(lines: seq<Line>, y: nat, x: nat)
    requires y < |lines| && x < |lines[y]|
    ensures |Ended(lines[..y])| + x < |Flat(lines)|
    ensures Flat(lines[y := lines[y][..x] + lines[y][x + 1..]]) == Removed(Flat(lines), |Ended(lines[..y])| + x)
  {
    var line := lines[y];
    EndedAround(lines, y);
    EndedReplaced(lines, y, line[..x] + line[x + 1..]);
    RemovedInside(Ended(lines[..y]), line, Ended(lines[y + 1..]), x);
  }

  /** A typed character appears at the cursor; in a full line the line's last character is dropped for it, and at
      the end of a full line nothing happens. */
  lemma InsertIsInsertion(t: Text, c: byte)
    requires IsText(t) && IsPlain(c)
    ensures IsText(InsertChar(t, c)) && Offset(t) <= |Flat(t.lines)|
    ensures var r, s, o, n := InsertChar(t, c), Flat(t.lines), Offset(t), |t.lines[t.y]|;
            if t.x == MAX_LENGTH then r == t
            else if n < MAX_LENGTH then Flat(r.lines) == Inserted(s, o, c) && Offset(r) == o + 1
            else && o - t.x + MAX_LENGTH < |Inserted(s, o, c)|
                 && Flat(r.lines) == Removed(Inserted(s, o, c), o - t.x + MAX_LENGTH) && Offset(r) == o + 1
  {
    hide Removed;
    GrownLine(t, c);
    var line := t.lines[t.y];
    var more := line[..t.x] + [c] + line[t.x..];
    var grown := t.lines[t.y := more];
    assert grown[..t.y] == t.lines[..t.y];
    if t.x < MAX_LENGTH {
      assert InsertChar(t, c).lines[..t.y] == t.lines[..t.y];
      if |line| == MAX_LENGTH {
        ShrunkLine(grown, t.y, MAX_LENGTH);
        assert more[..MAX_LENGTH] + more[MAX_LENGTH + 1..] == more[..MAX_LENGTH];
        assert grown[t.y := more[..MAX_LENGTH]] == InsertChar(t, c).lines;
      }
    }
  }

  /** Insertion and removal inside a line, seen from the flat text. */
  lemma InsertedInside(a: seq<byte>, line: Line, b: seq<byte>, x: nat, c: byte)
    requires x <= |line|
    ensures var s, s' := a + line + [NL] + b, a + (line[..x] + [c] + line[x..]) + [NL] + b;
            s'[..|s'| - 1] == Inserted(s[..|s| - 1], |a| + x, c)
  {
    var s, s' := a + line + [NL] + b, a + (line[..x] + [c] + line[x..]) + [NL] + b;
    assert s[..|s| - 1][..|a| + x] == a + line[..x];
    assert s[|a| + x..] == line[x..] + [NL] + b;
    assert s[..|s| - 1][|a| + x..] == s[|a| + x..][..|s| - 1 - |a| - x];
    assert s' == a + line[..x] + [c] + s[|a| + x..];
  }

  lemma RemovedInside(a: seq<byte>, line: Line, b: seq<byte>, x: nat)
    requires x < |line|
    ensures var s, s' := a + line + [NL] + b, a + (line[..x] + line[x + 1..]) + [NL] + b;
            s'[..|s'| - 1] == Removed(s[..|s| - 1], |a| + x)
  {
    var s, s' := a + line + [NL] + b, a + (line[..x] + line[x + 1..]) + [NL] + b;
    assert s[..|s| - 1][..|a| + x] == a + line[..x];
    assert s[|a| + x + 1..] == line[x + 1..] + [NL] + b;
    assert s[..|s| - 1][|a| + x + 1..] == s[|a| + x + 1..][..|s| - 2 - |a| - x];
    assert s' == a + line[..x] + s[|a| + x + 1..];
  }

  /** Joining line `y` with the next removes the newline between them. */
  lemma JoinIsRemoval(lines: seq<Line>, y: nat)
    requires y + 1 < |lines|
    ensures |Ended(lines[..y])| + |lines[y]| < |Flat(lines)|
    ensures Flat(Joined(lines, y)) == Removed(Flat(lines), |Ended(lines[..y])| + |lines[y]|)
  {
    hide Ended;
    var j := Joined(lines, y);
    var a, b := Ended(lines[..y]), Ended(lines[y + 2..]);
    EndedAroundTwo(lines, y);
    EndedAround(j, y);
    assert j[..y] == lines[..y] && j[y + 1..] == lines[y + 2..] && j[y] == lines[y] + lines[y + 1];
    var both := lines[y] + [NL] + lines[y + 1];
    RemovedInside(a, both, b, |lines[y]|);
    assert both[..|lines[y]|] + both[|lines[y]| + 1..] == j[y];
    assert Ended(lines) == a + both + [NL] + b;
    assert Ended(j) == a + j[y] + [NL] + b;
  }

  lemma JoinedAreLines(t: Text, i: nat)
    requires AreLines(t.lines) && Joinable(t, i)
    ensures AreLines(Joined(t.lines, i))
  {
    var j := Joined(t.lines, i);
    forall k | 0 <= k < |j| ensures IsLine(j[k]) {
      assert k > i ==> j[k] == t.lines[k + 1];
    }
  }

  /** Backspace removes the character before the cursor, a newline included; at the start of the text, and where
      the joined line would be too long, it changes nothing. */
  lemma BackspaceIsRemoval(t: Text)
    requires IsText(t)
    ensures IsText(Backspace(t)) && Offset(t) <= |Flat(t.lines)|
    ensures var r, s, o := Backspace(t), Flat(t.lines), Offset(t);
            if o == 0 || (t.x == 0 && !Joinable(t, t.y - 1)) then r == t
            else Flat(r.lines) == Removed(s, o - 1) && Offset(r) == o - 1
  {
    hide Ended, Flat, Removed;
    OffsetInFlat(t);
    if t.x > 0 {
      ShrunkLine(t.lines, t.y, t.x - 1);
      assert Backspace(t).lines[..t.y] == t.lines[..t.y];
    } else if t.y > 0 && Joinable(t, t.y - 1) {
      JoinedAreLines(t, t.y - 1);
      JoinIsRemoval(t.lines, t.y - 1);
      EndedNext(t.lines, t.y - 1);
      assert t.lines[..t.y - 1] == Joined(t.lines, t.y - 1)[..t.y - 1];
    }
  }

  /** Delete removes the character at the cursor, a newline included; at the end of the text, and where the joined
      line would be too long, it changes nothing. The cursor stays. */
  lemma DeleteIsRemoval(t: Text)
    requires IsText(t)
    ensures IsText(Delete(t)) && Offset(t) <= |Flat(t.lines)|
    ensures var r, s, o := Delete(t), Flat(t.lines), Offset(t);
            if o == |s| || (t.x == |t.lines[t.y]| && !Joinable(t, t.y)) then r == t
            else Flat(r.lines) == Removed(s, o) && Offset(r) == o
  {
    hide Flat;
    OffsetInFlat(t);
    if t.x < |t.lines[t.y]| {
      ShrunkLine(t.lines, t.y, t.x);
      assert Delete(t).lines[..t.y] == t.lines[..t.y];
    } else if Joinable(t, t.y) {
      JoinedAreLines(t, t.y);
      JoinIsRemoval(t.lines, t.y);
      assert Joined(t.lines, t.y)[..t.y] == t.lines[..t.y];
    }
  }

  lemma EnterShape(t: Text)
    requires IsText(t) && |t.lines| < MAX_LINES
    ensures IsText(Enter(t)) && Joinable(Enter(t), t.y) && Joined(Enter(t).lines, t.y) == t.lines
    ensures |Enter(t).lines[t.y]| == t.x && Enter(t).lines[..t.y] == t.lines[..t.y]
  {
    var line, r := t.lines[t.y], Enter(t);
    forall k | 0 <= k < |r.lines| ensures IsLine(r.lines[k]) {
      assert k > t.y + 1 ==> r.lines[k] == t.lines[k - 1];
      assert IsLine(t.lines[t.y]);
    }
    assert r.lines[t.y] + r.lines[t.y + 1] == line;
    assert r.lines[t.y + 2..] == t.lines[t.y + 1..];
  }

  lemma InsertedBack(s: seq<byte>, o: nat, was: seq<byte>)
    requires o < |s| && was == Removed(s, o)
    ensures s == Inserted(was, o, s[o])
  {
  }

  /** Enter inserts a newline at the cursor, unless there are 1000 lines already. */
  lemma EnterIsInsertion(t: Text)
    requires IsText(t)
    ensures IsText(Enter(t)) && Offset(t) <= |Flat(t.lines)|
    ensures var r, s, o := Enter(t), Flat(t.lines), Offset(t);
            if |t.lines| >= MAX_LINES then r == t
            else Flat(r.lines) == Inserted(s, o, NL) && Offset(r) == o + 1
  {
    hide Ended;
    OffsetInFlat(t);
    if |t.lines| < MAX_LINES {
      var r := Enter(t);
      EnterShape(t);
      JoinIsRemoval(r.lines, t.y);
      EndedAroundTwo(r.lines, t.y);
      InsertedBack(Flat(r.lines), Offset(t), Flat(t.lines));
      EndedNext(r.lines, t.y);
    }
  }

  /** Backspace undoes a typed character exactly when the line had room for it. */
  lemma BackspaceUndoesInsert(t: Text, c: byte)
    requires IsText(t) && IsPlain(c)
    ensures IsText(InsertChar(t, c))
    ensures Backspace(InsertChar(t, c)) == t <==> |t.lines[t.y]| < MAX_LENGTH
  {
    InsertIsInsertion(t, c);
    var line, r := t.lines[t.y], InsertChar(t, c);
    if |line| < MAX_LENGTH {
      var more := line[..t.x] + [c] + line[t.x..];
      assert more[..t.x] + more[t.x + 1..] == line;
      assert t.lines[t.y := more][t.y := line] == t.lines;
    } else {
      assert |Backspace(r).lines[t.y]| < MAX_LENGTH;
    }
  }

  /** Backspace undoes Enter exactly when there was room for a line or there was nothing to remove anyway. */
  lemma BackspaceUndoesEnter(t: Text)
    requires IsText(t)
    ensures IsText(Enter(t))
    ensures Backspace(Enter(t)) == t <==>
            |t.lines| < MAX_LINES || (t.x == 0 && (t.y == 0 || !Joinable(t, t.y - 1)))
  {
    EnterIsInsertion(t);
    if |t.lines| < MAX_LINES { EnterShape(t); }
  }

  // ---------------------------------------------------------------- the cursor keys

  function Clamp(v: int, low: int, high: int): int
    requires low <= high
  {
    if v < low then low else if v > high then high else v
  }

  /** nano_move_cursor: the line first, then a column that this line has. */
  ghost function MoveCursor(t: Text, dx: int, dy: int): (r: Text)
    requires IsText(t)
    ensures IsText(r)
  {
    var y := Clamp(t.y + dy, 0, |t.lines| - 1);
    Text(t.lines, Clamp(t.x + dx, 0, |t.lines[y]|), y)
  }

  const VIEWPORT_HEIGHT: nat := 23

  /** nano_page_scroll moves by one line less than the screen shows. */
  ghost function PageScroll(t: Text, direction: int): (r: Text)
    requires IsText(t)
    ensures IsText(r)
  {
    MoveCursor(t, 0, if direction < 0 then -(VIEWPORT_HEIGHT - 1) else VIEWPORT_HEIGHT - 1)
  }

  // ---------------------------------------------------------------- the keys

  const KEY_ESCAPE: nat := 0x01
  const KEY_BACKSPACE: nat := 0x0E
  const KEY_T: nat := 0x14
  const KEY_ENTER: nat := 0x1C
  const KEY_S: nat := 0x1F
  const KEY_H: nat := 0x23
  const KEY_X: nat := 0x2D
  const KEY_HOME: nat := 0x47
  const KEY_UP: nat := 0x48
  const KEY_PAGE_UP: nat := 0x49
  const KEY_LEFT: nat := 0x4B
  const KEY_RIGHT: nat := 0x4D
  const KEY_END: nat := 0x4F
  const KEY_DOWN: nat := 0x50
  const KEY_PAGE_DOWN: nat := 0x51
  const KEY_DELETE: nat := 0x53
  /** Keys of the extended block send 0xE0 in front of the code that they share with the keypad. */
  const EXTENDED: nat := 0xE000

  const TAB: byte := 9
  const BLANK: byte := 32
  const TILDE: byte := 126

  predicate IsKey(scancode: nat, key: nat) {
    scancode == key || scancode == EXTENDED + key
  }

  predicate IsArrow(scancode: nat) {
    IsKey(scancode, KEY_UP) || IsKey(scancode, KEY_DOWN) || IsKey(scancode, KEY_LEFT) || IsKey(scancode, KEY_RIGHT)
  }

  /** The two keys that change lines even where the cursor stands behind the last one. */
  predicate Editing(scancode: nat) {
    scancode == KEY_BACKSPACE || scancode == KEY_ENTER
  }

  predicate IsPrintable(c: byte) {
    BLANK <= c <= TILDE
  }

  /** A key that types its character. */
  predicate IsCharacter(scancode: nat, ascii: byte) {
    && IsPrintable(ascii) && scancode != KEY_ESCAPE && !Editing(scancode) && !IsArrow(scancode) && !IsKey(scancode, KEY_DELETE)
    && !IsKey(scancode, KEY_HOME) && !IsKey(scancode, KEY_END) && !IsKey(scancode, KEY_PAGE_UP) && !IsKey(scancode, KEY_PAGE_DOWN)
  }

  ghost function InsertTimes(t: Text, c: byte, n: nat): (r: Text)
    requires IsText(t) && IsPlain(c)
    ensures IsText(r)
    decreases n
  {
    if n == 0 then t
    else
      InsertIsInsertion(InsertTimes(t, c, n - 1), c);
      InsertChar(InsertTimes(t, c, n - 1), c)
  }

  /** The keys that edit the text or move the cursor. */
  ghost function Typed(t: Text, scancode: nat, ascii: byte): (r: Text)
    requires IsText(t)
    ensures IsText(r)
  {
    if scancode == KEY_BACKSPACE then
      BackspaceIsRemoval(t);
      Backspace(t)
    else if scancode == KEY_ENTER then
      EnterIsInsertion(t);
      Enter(t)
    else if IsKey(scancode, KEY_DELETE) then
      DeleteIsRemoval(t);
      Delete(t)
    else if IsKey(scancode, KEY_UP) then MoveCursor(t, 0, -1)
    else if IsKey(scancode, KEY_DOWN) then MoveCursor(t, 0, 1)
    else if IsKey(scancode, KEY_LEFT) then MoveCursor(t, -1, 0)
    else if IsKey(scancode, KEY_RIGHT) then MoveCursor(t, 1, 0)
    else if IsKey(scancode, KEY_HOME) then t.(x := 0)
    else if IsKey(scancode, KEY_END) then t.(x := |t.lines[t.y]|)
    else if IsKey(scancode, KEY_PAGE_UP) then PageScroll(t, -1)
    else if IsKey(scancode, KEY_PAGE_DOWN) then PageScroll(t, 1)
    else if IsPrintable(ascii) then InsertTimes(t, ascii, 1)
    else if ascii == TAB then InsertTimes(t, BLANK, 4)
    else t
  }

  /** What the editing keys do to the flat text `s` with the cursor at offset `o`: Backspace, Enter and the two Delete keys. */
  lemma EditingKeys(t: Text, scancode: nat, ascii: byte)
    requires IsText(t)
    ensures Offset(t) <= |Flat(t.lines)|
    ensures var r, s, o, n := Typed(t, scancode, ascii), Flat(t.lines), Offset(t), |t.lines[t.y]|;
            && (scancode == 0x0E ==>
                  if o == 0 || (t.x == 0 && |t.lines[t.y - 1]| + n >= 200) then r == t
                  else Flat(r.lines) == Removed(s, o - 1) && Offset(r) == o - 1)
            && (scancode == 0x1C ==>
                  if |t.lines| >= 1000 then r == t else Flat(r.lines) == Inserted(s, o, 10) && Offset(r) == o + 1)
            && (scancode in {0x53, 0xE053} ==>
                  if o == |s| || (t.x == n && n + |t.lines[t.y + 1]| >= 200) then r == t
                  else Flat(r.lines) == Removed(s, o) && Offset(r) == o)
  {
    hide Flat, Ended;
    FlatEnds(t);
    BackspaceIsRemoval(t);
    EnterIsInsertion(t);
    DeleteIsRemoval(t);
  }

  /** The cursor is at the start of the flat text exactly in front of the first line, and at its end behind the last. */
  lemma FlatEnds(t: Text)
    requires IsText(t)
    ensures Offset(t) == 0 <==> t.x == 0 && t.y == 0
    ensures Offset(t) == |Flat(t.lines)| <==> t.y == |t.lines| - 1 && t.x == |t.lines[t.y]|
  {
    EndedSplit(t);
  }

  lemma EndedSplit(t: Text)
    requires IsText(t)
    ensures |Ended(t.lines[..t.y])| == 0 <==> t.y == 0
    ensures |Ended(t.lines)| == |Ended(t.lines[..t.y])| + |t.lines[t.y]| + 1 + |Ended(t.lines[t.y + 1..])|
    ensures |Ended(t.lines[t.y + 1..])| == 0 <==> t.y == |t.lines| - 1
  {
    assert t.lines == t.lines[..t.y] + [t.lines[t.y]] + t.lines[t.y + 1..];
    EndedJoin(t.lines[..t.y] + [t.lines[t.y]], t.lines[t.y + 1..]);
    assert (t.lines[..t.y] + [t.lines[t.y]])[..t.y] == t.lines[..t.y];
  }

  /** The keys that type: a printable character, and the tabulator as four blanks. No other key changes anything. */
  lemma TypingKeys(t: Text, scancode: nat, ascii: byte)
    requires IsText(t) && !Special(scancode)
    ensures Offset(t) <= |Flat(t.lines)|
    ensures var r, s, o, n := Typed(t, scancode, ascii), Flat(t.lines), Offset(t), |t.lines[t.y]|;
            if 32 <= ascii <= 126 then
              n < 199 ==> Flat(r.lines) == s[..o] + [ascii] + s[o..] && Offset(r) == o + 1
            else if ascii == 9 then
              n < 196 ==> Flat(r.lines) == s[..o] + [32, 32, 32, 32] + s[o..] && Offset(r) == o + 4
            else r == t
  {
    hide Flat, Ended, Offset, InsertChar;
    InsertIsInsertion(t, 32);
    if 32 <= ascii <= 126 {
      InsertIsInsertion(t, ascii);
      assert InsertTimes(t, ascii, 0) == t;
    } else if ascii == 9 && |t.lines[t.y]| < 196 {
      TabIsInsertion(t);
    }
  }

  /** The scan codes of the editing keys and of those that move the cursor, on the keypad and in the extended block. */
  predicate Special(scancode: nat) {
    scancode in {0x0E, 0x1C, 0x47, 0x48, 0x49, 0x4B, 0x4D, 0x4F, 0x50, 0x51, 0x53,
                 0xE047, 0xE048, 0xE049, 0xE04B, 0xE04D, 0xE04F, 0xE050, 0xE051, 0xE053}
  }

  function Blanks(k: nat): (b: seq<byte>)
    ensures |b| == k
  {
    if k == 0 then [] else Blanks(k - 1) + [32]
  }

  lemma OneBlankMore(s: seq<byte>, o: nat, k: nat)
    requires o <= |s|
    ensures Inserted(s[..o] + Blanks(k) + s[o..], o + k, 32) == s[..o] + Blanks(k + 1) + s[o..]
  {
    var f := s[..o] + Blanks(k) + s[o..];
    assert f[..o + k] == s[..o] + Blanks(k) && f[o + k..] == s[o..];
  }

  lemma InsertGrows(t: Text, c: byte)
    requires IsText(t) && |t.lines[t.y]| < 199
    ensures var r := InsertChar(t, c); r.y == t.y < |r.lines| && r.x == t.x + 1 && |r.lines[r.y]| == |t.lines[t.y]| + 1
  {
  }

  lemma {:induction false} BlanksAreInsertion(t: Text, k: nat)
    requires IsText(t) && |t.lines[t.y]| + k < 200
    ensures Offset(t) <= |Flat(t.lines)|
    ensures var r, s, o := InsertTimes(t, 32, k), Flat(t.lines), Offset(t);
            && Flat(r.lines) == s[..o] + Blanks(k) + s[o..] && Offset(r) == o + k
            && r.y == t.y && |r.lines[r.y]| == |t.lines[t.y]| + k
    decreases k
  {
    hide Flat, Ended, Offset, InsertChar, Blanks, Inserted;
    InsertIsInsertion(t, 32);
    var s, o := Flat(t.lines), Offset(t);
    if k == 0 {
      assert Blanks(0) == [];
      assert s[..o] + [] + s[o..] == s;
    } else {
      BlanksAreInsertion(t, k - 1);
      var u := InsertTimes(t, 32, k - 1);
      InsertIsInsertion(u, 32);
      InsertGrows(u, 32);
      OneBlankMore(s, o, k - 1);
    }
  }

  lemma TabIsInsertion(t: Text)
    requires IsText(t) && |t.lines[t.y]| < 196
    ensures Offset(t) <= |Flat(t.lines)|
    ensures var r, s, o := InsertTimes(t, 32, 4), Flat(t.lines), Offset(t);
            Flat(r.lines) == s[..o] + [32, 32, 32, 32] + s[o..] && Offset(r) == o + 4
  {
    hide Flat, Ended, Offset, InsertTimes;
    BlanksAreInsertion(t, 4);
    assert Blanks(4) == Blanks(3) + [32] && Blanks(3) == Blanks(2) + [32] && Blanks(2) == Blanks(1) + [32] && Blanks(1) == [32];
  }

  /** The keys that move the cursor: left and right by one character of the line, Home and End to its ends, up and down by a
      line, the page keys by 22, to a column that the line has. */
  lemma CursorKeys(t: Text, scancode: nat, ascii: byte)
    requires IsText(t) && Special(scancode) && scancode !in {0x0E, 0x1C, 0x53, 0xE053}
    ensures var r, n := Typed(t, scancode, ascii), |t.lines[t.y]|;
            && r.lines == t.lines
            && (scancode in {0x4B, 0xE04B} ==> Offset(r) == if t.x > 0 then Offset(t) - 1 else Offset(t))
            && (scancode in {0x4D, 0xE04D} ==> Offset(r) == if t.x < n then Offset(t) + 1 else Offset(t))
            && (scancode in {0x47, 0xE047} ==> Offset(r) == Offset(t) - t.x)
            && (scancode in {0x4F, 0xE04F} ==> Offset(r) == Offset(t) + (n - t.x))
            && (scancode in {0x48, 0xE048} ==> r.y == if t.y > 0 then t.y - 1 else t.y)
            && (scancode in {0x50, 0xE050} ==> r.y == if t.y + 1 < |t.lines| then t.y + 1 else t.y)
            && (scancode in {0x49, 0xE049} ==> r.y == if t.y > 22 then t.y - 22 else 0)
            && (scancode in {0x51, 0xE051} ==> r.y == if t.y + 22 < |t.lines| then t.y + 22 else |t.lines| - 1)
            && (scancode in {0x48, 0x49, 0x50, 0x51, 0xE048, 0xE049, 0xE050, 0xE051} ==>
                  r.x == if t.x < |t.lines[r.y]| then t.x else |t.lines[r.y]|)
            && (scancode in {0x47, 0x4B, 0x4D, 0x4F, 0xE047, 0xE04B, 0xE04D, 0xE04F} ==> r.y == t.y)
  {
    hide Ended;
  }

  // ---------------------------------------------------------------- text without NUL characters

  ghost predicate NulFree(l: Line) {
    forall j | 0 <= j < |l| :: l[j] != NUL
  }

  ghost predicate AllNulFree(lines: seq<Line>) {
    forall i | 0 <= i < |lines| :: NulFree(lines[i])
  }

  lemma JoinedNulFree(lines: seq<Line>, i: nat)
    requires i + 1 < |lines| && AllNulFree(lines)
    ensures AllNulFree(Joined(lines, i))
  {
    var j := Joined(lines, i);
    forall k | 0 <= k < |j| ensures NulFree(j[k]) {
      assert NulFree(lines[i]) && NulFree(lines[i + 1]);
      assert k > i ==> j[k] == lines[k + 1];
    }
  }

  lemma EnterNulFree(t: Text)
    requires IsText(t) && AllNulFree(t.lines)
    ensures AllNulFree(Enter(t).lines)
  {
    var r := Enter(t);
    forall k | 0 <= k < |r.lines| ensures NulFree(r.lines[k]) {
      assert NulFree(t.lines[t.y]);
      assert |t.lines| < MAX_LINES && k > t.y + 1 ==> r.lines[k] == t.lines[k - 1];
    }
  }

  lemma RemovalNulFree(t: Text)
    requires IsText(t) && AllNulFree(t.lines)
    ensures AllNulFree(Backspace(t).lines) && AllNulFree(Delete(t).lines)
  {
    assert NulFree(t.lines[t.y]);
    if t.y > 0 && Joinable(t, t.y - 1) { JoinedNulFree(t.lines, t.y - 1); }
    if Joinable(t, t.y) { JoinedNulFree(t.lines, t.y); }
  }

  lemma InsertNulFree(t: Text, c: byte, n: nat)
    requires IsText(t) && IsPlain(c) && c != NUL && AllNulFree(t.lines)
    ensures AllNulFree(InsertTimes(t, c, n).lines)
    decreases n
  {
    if n > 0 {
      var u := InsertTimes(t, c, n - 1);
      InsertNulFree(t, c, n - 1);
      assert NulFree(u.lines[u.y]);
    }
  }

  /** No key puts a NUL into the text. */
  lemma TypedNulFree(t: Text, scancode: nat, ascii: byte)
    requires IsText(t) && AllNulFree(t.lines)
    ensures AllNulFree(Typed(t, scancode, ascii).lines)
  {
    hide IsText;
    if scancode == KEY_BACKSPACE {
      RemovalNulFree(t);
    } else if scancode == KEY_ENTER {
      EnterNulFree(t);
    } else if IsKey(scancode, KEY_DELETE) {
      RemovalNulFree(t);
    } else {
      if IsPrintable(ascii) { InsertNulFree(t, ascii, 1); }
      InsertNulFree(t, BLANK, 4);
    }
  }

  // ---------------------------------------------------------------- loading

  /** Where the loading loop of nano_init_editor stands: the finished lines and the one in the making. */
  datatype Loading = Loading(lines: seq<Line>, current: Line)

  function LoadByte(l: Loading, c: byte): Loading {
    if |l.lines| >= MAX_LINES then l
    else if c == NL then Loading(l.lines + [l.current], [])
    else if c != CR && |l.current| < MAX_LENGTH then Loading(l.lines, l.current + [c])
    else l
  }

  function Load(b: seq<byte>): Loading {
    if b == [] then Loading([], []) else LoadByte(Load(b[..|b| - 1]), b[|b| - 1])
  }

  /** The lines of a file: carriage returns dropped, long lines cut, and a last line without a newline only if it is
      not empty. */
  function Parse(b: seq<byte>): seq<Line> {
    var l := Load(b);
    if |l.current| > 0 && |l.lines| < MAX_LINES then l.lines + [l.current] else l.lines
  }

  lemma LoadNext(b: seq<byte>, c: byte)
    ensures Load(b + [c]) == LoadByte(Load(b), c)
  {
    assert (b + [c])[..|b|] == b;
  }

  /** Whatever the file holds, the buffer holds lines. */
  lemma {:induction false} LoadedAreLines(b: seq<byte>)
    ensures AreLines(Load(b).lines) && IsLine(Load(b).current) && AreLines(Parse(b))
  {
    if b != [] { LoadedAreLines(b[..|b| - 1]); }
  }

  lemma {:induction false} LoadOfCarriageReturns(b: seq<byte>)
    ensures Load(b) == Loading([], []) <==> forall i | 0 <= i < |b| :: b[i] == CR
  {
    if b != [] {
      var rest := b[..|b| - 1];
      LoadOfCarriageReturns(rest);
      assert forall i | 0 <= i < |rest| :: rest[i] == b[i];
    }
  }

  /** A file loads as no lines at all exactly if it holds nothing but carriage returns. */
  lemma ParsesToNothing(b: seq<byte>)
    ensures Parse(b) == [] <==> forall i | 0 <= i < |b| :: b[i] == CR
  {
    LoadOfCarriageReturns(b);
  }

  ghost function WithoutReturns(l: Line): (r: Line)
    ensures |r| <= |l|
  {
    if l == [] then []
    else WithoutReturns(l[..|l| - 1]) + (if l[|l| - 1] == CR then [] else [l[|l| - 1]])
  }

  /** What is left of a line of the file. */
  ghost function Trimmed(l: Line): Line {
    First(WithoutReturns(l), MAX_LENGTH)
  }

  ghost function TrimmedLines(lines: seq<Line>): (r: seq<Line>)
    ensures |r| == |lines|
  {
    seq(|lines|, i requires 0 <= i < |lines| => Trimmed(lines[i]))
  }

  ghost predicate NoNewline(l: Line) {
    forall j | 0 <= j < |l| :: l[j] != NL
  }

  lemma LoadNothing()
    ensures Load([]) == Loading([], [])
  {
  }

  lemma {:induction false} LoadLine(b: seq<byte>, l: Line)
    requires Load(b).current == [] && NoNewline(l)
    ensures Load(b + l) == if |Load(b).lines| >= MAX_LINES then Load(b) else Loading(Load(b).lines, Trimmed(l))
    decreases |l|
  {
    if l == [] {
      assert b + l == b;
    } else {
      var rest := l[..|l| - 1];
      LoadLine(b, rest);
      assert b + l == (b + rest) + [l[|l| - 1]];
      LoadNext(b + rest, l[|l| - 1]);
    }
  }

  lemma {:induction false} LoadLines(lines: seq<Line>)
    requires forall i | 0 <= i < |lines| :: NoNewline(lines[i])
    ensures Load(Ended(lines)) ==
            Loading(if |lines| <= MAX_LINES then TrimmedLines(lines) else TrimmedLines(lines)[..MAX_LINES], [])
  {
    hide Load;
    EndedNothing();
    LoadNothing();
    if lines != [] {
      var rest, last := lines[..|lines| - 1], lines[|lines| - 1];
      assert forall i | 0 <= i < |rest| :: rest[i] == lines[i];
      EndedNext(lines, |rest|);
      assert lines[..|lines|] == lines;
      LoadLines(rest);
      LoadLine(Ended(rest), last);
      LoadNext(Ended(rest) + last, NL);
      assert TrimmedLines(lines) == TrimmedLines(rest) + [Trimmed(last)];
    }
  }

  /** Any file is some lines ended by newlines and a rest. It loads as its first 1000 lines, each without carriage
      returns and cut to 199 characters, the rest counting as a line unless nothing is left of it. */
  lemma LoadMeaning(lines: seq<Line>, rest: Line)
    requires NoNewline(rest) && forall i | 0 <= i < |lines| :: NoNewline(lines[i])
    ensures var all := TrimmedLines(lines) + (if Trimmed(rest) == [] then [] else [Trimmed(rest)]);
            Parse(Ended(lines) + rest) == if |all| <= MAX_LINES then all else all[..MAX_LINES]
  {
    LoadLines(lines);
    LoadLine(Ended(lines), rest);
    assert TrimmedLines(lines) + [] == TrimmedLines(lines);
  }

  /** What nano_init_editor shows for the file's bytes, if it could read any. */
  function Shown(content: seq<byte>): seq<Line> {
    if content == [] then [[]] else Parse(content)
  }

  // ---------------------------------------------------------------- saving

  /** The part of a line that nano_save_file writes after `n` bytes. */
  function Room(l: Line, n: nat): Line {
    if n + |l| <= IO_SIZE - 2 then l else if n <= IO_SIZE - 2 then l[..IO_SIZE - 2 - n] else []
  }

  /** The bytes that nano_save_file hands to the file system. */
  function Serialise(lines: seq<Line>): (out: seq<byte>)
    ensures |out| <= IO_SIZE - 1
  {
    if lines == [] then []
    else
      var out := Serialise(lines[..|lines| - 1]);
      if |out| < IO_SIZE - 1 then out + Room(lines[|lines| - 1], |out|) + [NL] else out
  }

  lemma SerialiseNext(lines: seq<Line>, i: nat)
    requires i < |lines|
    ensures Serialise(lines[..i + 1]) ==
            var out := Serialise(lines[..i]); if |out| < IO_SIZE - 1 then out + Room(lines[i], |out|) + [NL] else out
  {
    assert lines[..i + 1][..i] == lines[..i];
  }

  /** The bytes that are saved: the lines, each ended by a newline, or the first 16382 bytes of that and a newline. */
  lemma {:induction false} SavedBytes(lines: seq<Line>)
    ensures Serialise(lines) == if |Ended(lines)| <= 16383 then Ended(lines) else Ended(lines)[..16382] + [10]
  {
    if lines != [] {
      var rest, last := lines[..|lines| - 1], lines[|lines| - 1];
      SavedBytes(rest);
      EndedLast(rest);
      var e := Ended(rest);
      assert Ended(lines) == e + (last + [NL]);
      if |e| < 16383 && |e| + |last| > 16382 {
        assert (e + (last + [NL]))[..16382] == e + last[..16382 - |e|];
      } else if |e| == 16383 {
        assert e == e[..16382] + [10];
        assert (e + (last + [NL]))[..16382] == e[..16382];
      } else if |e| > 16383 {
        assert (e + (last + [NL]))[..16382] == e[..16382];
      }
    }
  }

  lemma EndedLast(lines: seq<Line>)
    ensures lines != [] ==> Ended(lines) != [] && Ended(lines)[|Ended(lines)| - 1] == 10
    ensures lines == [] ==> Ended(lines) == []
  {
  }

  /** Once the buffer is full, the remaining lines are dropped. */
  lemma {:induction false} SerialiseStops(lines: seq<Line>, i: nat)
    requires i <= |lines| && |Serialise(lines[..i])| == IO_SIZE - 1
    ensures Serialise(lines) == Serialise(lines[..i])
  {
    if i == |lines| {
      assert lines[..i] == lines;
    } else {
      var rest := lines[..|lines| - 1];
      assert rest[..i] == lines[..i];
      SerialiseStops(rest, i);
    }
  }

  /** The lines that are actually written, the last of them perhaps cut. */
  ghost function Kept(lines: seq<Line>): (k: seq<Line>)
    ensures |k| <= |lines|
  {
    if lines == [] then []
    else
      var rest := lines[..|lines| - 1];
      var n := |Serialise(rest)|;
      if n < IO_SIZE - 1 then Kept(rest) + [Room(lines[|lines| - 1], n)] else Kept(rest)
  }

  lemma {:induction false} SerialiseIsKept(lines: seq<Line>)
    requires AreLines(lines)
    ensures Serialise(lines) == Ended(Kept(lines)) && AreLines(Kept(lines))
  {
    if lines != [] {
      var rest, last := lines[..|lines| - 1], lines[|lines| - 1];
      assert AreLines(rest);
      SerialiseIsKept(rest);
      assert IsLine(last);
      EndedJoin(Kept(rest), [Room(last, |Serialise(rest)|)]);
      EndedOne(Room(last, |Serialise(rest)|));
    }
  }

  lemma {:induction false} SmallIsKept(lines: seq<Line>)
    requires |Ended(lines)| <= IO_SIZE - 1
    ensures Kept(lines) == lines && Serialise(lines) == Ended(lines)
  {
    if lines != [] {
      SmallIsKept(lines[..|lines| - 1]);
    }
  }

  lemma {:induction false} WholeLineIsKept(l: Line)
    requires IsLine(l)
    ensures WithoutReturns(l) == l
  {
    if l != [] {
      assert IsLine(l[..|l| - 1]);
      WholeLineIsKept(l[..|l| - 1]);
    }
  }

  lemma LoadEnded(lines: seq<Line>)
    requires AreLines(lines)
    ensures Load(Ended(lines)) == Loading(lines, [])
  {
    forall i | 0 <= i < |lines| ensures NoNewline(lines[i]) && Trimmed(lines[i]) == lines[i] {
      assert IsLine(lines[i]);
      WholeLineIsKept(lines[i]);
    }
    LoadLines(lines);
    assert TrimmedLines(lines) == lines;
  }

  /** Saving and then loading gives the same lines exactly if they fit the 16 KB buffer; what does not fit is cut. */
  lemma SaveThenLoad(lines: seq<Line>)
    requires AreLines(lines)
    ensures Parse(Serialise(lines)) == lines <==> |Ended(lines)| <= IO_SIZE - 1
  {
    SerialiseIsKept(lines);
    LoadEnded(Kept(lines));
    if |Ended(lines)| <= IO_SIZE - 1 { SmallIsKept(lines); }
  }

  /** The flat text and the offset determine lines and cursor: nothing is lost in the flat view. */
  lemma FlatDetermines(t: Text, u: Text)
    requires IsText(t) && IsText(u) && Flat(t.lines) == Flat(u.lines) && Offset(t) == Offset(u)
    ensures t == u
  {
    EndedAround(t.lines, |t.lines| - 1);
    EndedAround(u.lines, |u.lines| - 1);
    assert Ended(t.lines) == Flat(t.lines) + [NL];
    assert Ended(u.lines) == Flat(u.lines) + [NL];
    LoadEnded(t.lines);
    LoadEnded(u.lines);
    assert t.lines == u.lines;
    if t.y < u.y { OffsetGrows(t.lines, t.y, u.y); }
    if u.y < t.y { OffsetGrows(t.lines, u.y, t.y); }
  }

  lemma OffsetGrows(lines: seq<Line>, y: nat, z: nat)
    requires y < z < |lines|
    ensures |Ended(lines[..y])| + |lines[y]| < |Ended(lines[..z])|
  {
    EndedAround(lines[..z], y);
    assert lines[..z][..y] == lines[..y] && lines[..z][y] == lines[y];
  }
}
