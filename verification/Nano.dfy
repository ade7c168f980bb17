/** The nano editor: its fixed array of lines, edited in place, and the state machine of its keys. */
module Nano {
  import opened Bytes
  import opened NanoText

  /** strcpy_impl on two rows: `dest` takes the characters of `src` up to its first NUL, and keeps the rest. */
  ghost function Strcpy(dest: seq<byte>, src: seq<byte>, k: nat): seq<byte>
    requires k < |dest| == |src|
  {
    src[..k + 1] + dest[k + 1..]
  }

  /** A line of `n` characters is moved intact by strcpy exactly if what lies behind its first NUL, should it have
      one, was there already. */
  lemma CopyIsExact(dest: seq<byte>, src: seq<byte>, k: nat, n: nat)
    requires k < |dest| == |src| && src[k] == NUL && n <= |src|
    ensures Strcpy(dest, src, k)[..n] == src[..n] <==> k + 1 >= n || dest[k + 1..n] == src[k + 1..n]
  {
    var r := Strcpy(dest, src, k);
    if k + 1 < n {
      assert r[..n][k + 1..] == dest[k + 1..n];
      assert src[..n][k + 1..] == src[k + 1..n];
      assert r[..n] == src[..k + 1] + dest[k + 1..n];
      assert src[..n] == src[..k + 1] + src[k + 1..n];
    }
  }

  /** The lines after a split, one by one. */
  lemma SplitLines(lines: seq<Line>, now: seq<Line>, y: nat, x: nat)
    requires y < |lines| && x <= |lines[y]| && |now| == |lines| + 1
    requires now[y] == lines[y][..x] && now[y + 1] == lines[y][x..]
    requires forall i | 0 <= i < y :: now[i] == lines[i]
    requires forall i | y + 1 < i < |now| :: now[i] == lines[i - 1]
    ensures now == lines[..y] + [lines[y][..x], lines[y][x..]] + lines[y + 1..]
  {
  }

  class LineBuffer {
    /** lines and line_lengths. */
    const rows: array2<byte>
    const lengths: array<nat>
    var total: nat
    var cursorX: nat
    var cursorY: nat
    var dirty: bool

    /** Lengths leave room for a NUL, the last byte of a row is one, and no row holds a line break. */
    ghost predicate Shape()
      reads rows, lengths
    {
      && rows.Length0 == MAX_LINES && rows.Length1 == LINE_SIZE && lengths.Length == MAX_LINES
      && (forall i | 0 <= i < MAX_LINES :: lengths[i] <= MAX_LENGTH && rows[i, MAX_LENGTH] == NUL)
      && (forall i, j | 0 <= i < MAX_LINES && 0 <= j < LINE_SIZE :: IsPlain(rows[i, j]))
    }

    /** The cursor is in the text, or in the row behind its last line. A file of carriage returns only leaves no line, and
        then the keys work on that row. */
    ghost predicate Sane()
      reads `total, `cursorX, `cursorY, rows, lengths
    {
      Shape() && cursorY <= total <= MAX_LINES && cursorY < MAX_LINES && cursorX <= lengths[cursorY]
    }

    /** The cursor is in the text. */
    ghost predicate Valid()
      reads `total, `cursorX, `cursorY, rows, lengths
    {
      Sane() && cursorY < total
    }

    ghost function Line(i: nat): (l: Line)
      requires Shape() && i < MAX_LINES
      reads rows, lengths
      ensures |l| == lengths[i]
    {
      seq(lengths[i], j requires 0 <= j < rows.Length1 && i < rows.Length0 reads rows => rows[i, j])
    }

    ghost function Lines(): (s: seq<Line>)
      requires Shape() && total <= MAX_LINES
      reads `total, rows, lengths
      ensures |s| == total && forall i | 0 <= i < total :: s[i] == Line(i)
    {
      seq(total, i requires 0 <= i < MAX_LINES && Shape() reads rows, lengths => Line(i))
    }

    ghost function Content(): Text
      requires Shape() && total <= MAX_LINES
      reads `total, `cursorX, `cursorY, rows, lengths
    {
      Text(Lines(), cursorX, cursorY)
    }

    lemma ContentIsText()
      requires Valid()
      ensures IsText(Content())
    {
      forall i | 0 <= i < total ensures IsLine(Lines()[i]) {
        assert Lines()[i] == Line(i);
      }
    }

    /** The zero-initialised static state. */
    constructor ()
      ensures Shape() && total == 0 && !dirty && fresh(rows) && fresh(lengths)
    {
      rows := new byte[MAX_LINES, LINE_SIZE]((i, j) => NUL);
      lengths := new nat[MAX_LINES](i => 0);
      total, cursorX, cursorY, dirty := 0, 0, 0, false;
    }

    /** The first `n` characters of a row, whatever its length says. */
    ghost function Cells(i: nat, n: nat): (l: Line)
      requires Shape() && i < MAX_LINES && n <= LINE_SIZE
      reads rows, lengths
      ensures |l| == n
    {
      seq(n, j requires 0 <= j < rows.Length1 && i < rows.Length0 reads rows => rows[i, j])
    }

    lemma RowsFit()
      requires Shape()
      ensures lengths.Length == MAX_LINES && forall i | 0 <= i < MAX_LINES :: lengths[i] == |Line(i)| <= MAX_LENGTH
    {
    }

    // ---------------------------------------------------------------- whole rows

    /** line_lengths[dst] = line_lengths[src]; strcpy_impl(lines[dst], lines[src]). */
    method CopyLine(dst: nat, src: nat) returns (ghost end: nat)
      requires Shape() && dst < MAX_LINES && src < MAX_LINES && dst != src
      modifies rows, lengths
      ensures Shape() && forall i | 0 <= i < MAX_LINES && i != dst :: Line(i) == old(Line(i))
      ensures end < LINE_SIZE && old(rows[src, end]) == NUL && NulFree(old(Cells(src, end)))
      ensures Cells(dst, LINE_SIZE) == Strcpy(old(Cells(dst, LINE_SIZE)), old(Cells(src, LINE_SIZE)), end)
      ensures NulFree(old(Line(src))) ==> Line(dst) == old(Line(src))
    {
      ghost var line := Line(src);
      lengths[dst] := lengths[src];
      var k := 0;
      while rows[src, k] != NUL
        invariant 0 <= k <= MAX_LENGTH && Shape() && lengths[dst] == old(lengths[src]) && lengths[src] == old(lengths[src])
        invariant forall i | 0 <= i < MAX_LINES && i != dst :: lengths[i] == old(lengths[i])
        invariant forall i, j | 0 <= i < MAX_LINES && 0 <= j < LINE_SIZE && i != dst :: rows[i, j] == old(rows[i, j])
        invariant forall j | 0 <= j < k :: rows[dst, j] == rows[src, j] != NUL
        invariant forall j | k <= j < LINE_SIZE :: rows[dst, j] == old(rows[dst, j])
        decreases MAX_LENGTH - k
      {
        rows[dst, k] := rows[src, k];
        k := k + 1;
      }
      rows[dst, k] := NUL;
      end := k;
      assert k >= |line| || !NulFree(line) by {
        if k < |line| { assert line[k] == NUL; }
      }
      if NulFree(line) { assert Line(dst) == line; }
      forall i | 0 <= i < MAX_LINES && i != dst ensures Line(i) == old(Line(i)) {
      }
    }

    /** The loop that closes the gap left by row `from`. */
    method ShiftUp(from: nat)
      requires Shape() && from <= total <= MAX_LINES
      modifies rows, lengths
      ensures Shape() && forall i | 0 <= i < from :: Line(i) == old(Line(i))
      ensures (forall i | from < i < total :: NulFree(old(Line(i)))) ==>
                forall i | from <= i < total - 1 :: Line(i) == old(Line(i + 1))
    {
      var i := from;
      while i < total - 1
        invariant from <= i && (i < total || i == from) && Shape() && forall k | 0 <= k < from :: Line(k) == old(Line(k))
        invariant forall k | i < k < MAX_LINES :: Line(k) == old(Line(k))
        invariant (forall k | from < k < total :: NulFree(old(Line(k)))) ==>
                    forall k | from <= k < i :: Line(k) == old(Line(k + 1))
      {
        ghost var end := CopyLine(i, i + 1);
        i := i + 1;
      }
    }

    /** The loop that opens a gap at row `to`. */
    method ShiftDown(to: nat)
      requires Shape() && 0 < to <= total < MAX_LINES
      modifies rows, lengths
      ensures Shape() && forall i | 0 <= i < to :: Line(i) == old(Line(i))
      ensures (forall i | to <= i < total :: NulFree(old(Line(i)))) ==>
                forall i | to < i <= total :: Line(i) == old(Line(i - 1))
    {
      var i := total;
      while i > to
        invariant to <= i <= total && Shape() && forall k | 0 <= k < i :: Line(k) == old(Line(k))
        invariant (forall k | to <= k < total :: NulFree(old(Line(k)))) ==>
                    forall k | i < k <= total :: Line(k) == old(Line(k - 1))
      {
        ghost var end := CopyLine(i, i - 1);
        i := i - 1;
      }
    }

    /** Moves the characters of row `src` from column `from` on to row `dst`, from column `at` on, and ends it there. */
    method MoveTail(dst: nat, at: nat, src: nat, from: nat)
      requires Shape() && dst < MAX_LINES && src < MAX_LINES && dst != src
      requires from <= lengths[src] && at <= lengths[dst] && at + (lengths[src] - from) <= MAX_LENGTH
      modifies rows, lengths
      ensures Shape() && forall i | 0 <= i < MAX_LINES && i != dst :: Line(i) == old(Line(i))
      ensures Line(dst) == old(Line(dst))[..at] + old(Line(src))[from..]
    {
      var n := lengths[src] - from;
      for i := 0 to n
        invariant Shape() && forall k | 0 <= k < MAX_LINES :: lengths[k] == old(lengths[k])
        invariant forall k, j | 0 <= k < MAX_LINES && 0 <= j < LINE_SIZE && k != dst :: rows[k, j] == old(rows[k, j])
        invariant forall j | 0 <= j < at :: rows[dst, j] == old(rows[dst, j])
        invariant forall j | at <= j < at + i :: rows[dst, j] == old(rows[src, from + (j - at)])
      {
        rows[dst, at + i] := rows[src, from + i];
      }
      lengths[dst] := at + n;
      rows[dst, at + n] := NUL;
      assert Line(dst) == old(Line(dst))[..at] + old(Line(src))[from..];
      forall i | 0 <= i < MAX_LINES && i != dst ensures Line(i) == old(Line(i)) {
      }
    }

    // ---------------------------------------------------------------- characters of a row

    /** The loop that makes room for a character; in a full row the last one is dropped. */
    method ShiftRight(y: nat, x: nat)
      requires Shape() && y < MAX_LINES && x < lengths[y]
      modifies rows
      ensures Shape()
      ensures forall k, j | 0 <= k < MAX_LINES && 0 <= j < LINE_SIZE && (k != y || j <= x) :: rows[k, j] == old(rows[k, j])
      ensures forall j | x < j <= lengths[y] && j < MAX_LENGTH :: rows[y, j] == old(rows[y, j - 1])
    {
      var i := lengths[y];
      while i > x
        invariant x <= i <= lengths[y] && Shape()
        invariant forall k, j | 0 <= k < MAX_LINES && 0 <= j < LINE_SIZE && (k != y || j <= i) :: rows[k, j] == old(rows[k, j])
        invariant forall j | i < j <= lengths[y] && j < MAX_LENGTH :: rows[y, j] == old(rows[y, j - 1])
      {
        if i < LINE_SIZE - 1 { rows[y, i] := rows[y, i - 1]; }
        i := i - 1;
      }
    }

    /** The loop of nano_insert_char that makes room at column `x`; in a full row the last character is lost. */
    method InsertInRow(y: nat, x: nat, c: byte)
      requires Shape() && y < MAX_LINES && x < lengths[y] && IsPlain(c)
      modifies rows, lengths
      ensures Shape() && forall i | 0 <= i < MAX_LINES && i != y :: Line(i) == old(Line(i))
      ensures Line(y) == First(old(Line(y))[..x] + [c] + old(Line(y))[x..], MAX_LENGTH)
    {
      ghost var line := Line(y);
      ghost var more := line[..x] + [c] + line[x..];
      assert forall j | x < j <= |line| :: more[j] == line[j - 1];
      ShiftRight(y, x);
      rows[y, x] := c;
      if lengths[y] < LINE_SIZE - 1 { lengths[y] := lengths[y] + 1; }
      rows[y, lengths[y]] := NUL;
      assert Line(y) == First(more, MAX_LENGTH);
      forall i | 0 <= i < MAX_LINES && i != y ensures Line(i) == old(Line(i)) {
      }
    }

    /** nano_insert_char. Behind the last line the character goes to a row that is no line of the text. */
    method InsertChar(c: byte)
      requires Sane() && IsPlain(c)
      modifies this, rows, lengths
      ensures Sane() && dirty && total == old(total) && cursorY == old(cursorY)
      ensures old(Valid()) ==> Valid() && IsText(old(Content())) && Content() == NanoText.InsertChar(old(Content()), c)
      ensures !old(Valid()) ==> Lines() == old(Lines())
    {
      hide Line, Shape, Lines, IsText;
      if Valid() { ContentIsText(); }
      RowsFit();
      ghost var lines, valid := Lines(), Valid();
      var x, y := cursorX, cursorY;
      if x >= lengths[y] && x < LINE_SIZE - 1 {
        AppendToRow(y, c);
        RowsFit();
        cursorX := cursorX + 1;
        if valid {
          assert lines[y] + [c] == lines[y][..x] + [c] + lines[y][x..];
          assert Lines() == lines[y := lines[y] + [c]];
        }
      } else if x < lengths[y] && x < LINE_SIZE - 1 {
        InsertInRow(y, x, c);
        RowsFit();
        cursorX := cursorX + 1;
        if valid { assert Lines() == lines[y := First(lines[y][..x] + [c] + lines[y][x..], MAX_LENGTH)]; }
      }
      dirty := true;
      if !valid { assert Lines() == lines; }
    }

    method AppendToRow(y: nat, c: byte)
      requires Shape() && y < MAX_LINES && lengths[y] < MAX_LENGTH && IsPlain(c)
      modifies rows, lengths
      ensures Shape() && forall i | 0 <= i < MAX_LINES && i != y :: Line(i) == old(Line(i))
      ensures Line(y) == old(Line(y)) + [c]
    {
      var x := lengths[y];
      rows[y, x] := c;
      rows[y, x + 1] := NUL;
      lengths[y] := lengths[y] + 1;
      assert Line(y) == old(Line(y)) + [c];
      forall i | 0 <= i < MAX_LINES && i != y ensures Line(i) == old(Line(i)) {
      }
    }

    /** The loops of nano_handle_backspace and nano_handle_delete that close the gap at column `x`; they differ in
        whether the NUL behind the line moves along. */
    method RemoveFromRow(y: nat, x: nat, last: nat)
      requires Shape() && y < MAX_LINES && x < lengths[y] && lengths[y] - 1 <= last <= lengths[y]
      modifies rows, lengths
      ensures Shape() && forall i | 0 <= i < MAX_LINES && i != y :: Line(i) == old(Line(i))
      ensures Line(y) == old(Line(y))[..x] + old(Line(y))[x + 1..]
    {
      ghost var line := Line(y);
      var n := lengths[y];
      for i := x to last
        invariant Shape() && lengths[y] == n
        invariant forall k | 0 <= k < MAX_LINES :: lengths[k] == old(lengths[k])
        invariant forall k, j | 0 <= k < MAX_LINES && 0 <= j < LINE_SIZE && k != y :: rows[k, j] == old(rows[k, j])
        invariant forall j | 0 <= j < x :: rows[y, j] == line[j]
        invariant forall j | x <= j < i && j + 1 < n :: rows[y, j] == line[j + 1]
        invariant forall j | i <= j < n :: rows[y, j] == line[j]
      {
        rows[y, i] := rows[y, i + 1];
      }
      lengths[y] := lengths[y] - 1;
      rows[y, lengths[y]] := NUL;
      assert Line(y) == line[..x] + line[x + 1..];
      forall i | 0 <= i < MAX_LINES && i != y ensures Line(i) == old(Line(i)) {
      }
    }

    /** One character of row `y` goes, which may be the one behind the last line. */
    method RemoveChar(y: nat, x: nat, last: nat)
      requires Shape() && y <= total <= MAX_LINES && y < MAX_LINES && x < |Line(y)| && |Line(y)| - 1 <= last <= |Line(y)|
      modifies rows, lengths
      ensures Shape() && |Line(y)| == |old(Line(y))| - 1
      ensures Lines() == if y < total then old(Lines())[y := old(Lines())[y][..x] + old(Lines())[y][x + 1..]] else old(Lines())
    {
      RowsFit();
      ghost var lines := Lines();
      RemoveFromRow(y, x, last);
      if y < total {
        assert Lines() == lines[y := lines[y][..x] + lines[y][x + 1..]];
      } else {
        assert Lines() == lines;
      }
    }

    /** The lines from `from` on, which a joining or splitting key moves, hold no NUL. */
    ghost predicate Movable(from: nat)
      requires Sane()
      reads `total, `cursorX, `cursorY, rows, lengths
    {
      forall i | from <= i < total :: NulFree(Line(i))
    }

    lemma NulFreeIsMovable()
      requires Valid() && AllNulFree(Lines())
      ensures forall i | 0 <= i < total :: NulFree(Line(i))
    {
      forall i | 0 <= i < total ensures NulFree(Line(i)) {
        assert Lines()[i] == Line(i);
      }
    }

    /** Row `y` takes over the characters of the row behind it, which goes. When that is no line of the text, the text
        loses its last line. */
    method JoinRows(y: nat)
      requires Shape() && y + 1 < MAX_LINES && y + 1 <= total <= MAX_LINES && |Line(y)| + |Line(y + 1)| < LINE_SIZE
      modifies rows, lengths, `total
      ensures Shape() && total == old(total) - 1
      ensures |Line(y)| == |old(Line(y))| + |old(Line(y + 1))|
      ensures forall i | 0 <= i < y :: Line(i) == old(Line(i))
      ensures y + 1 < old(total) && (forall i | y + 1 < i < old(total) :: NulFree(old(Line(i)))) ==>
                Lines() == Joined(old(Lines()), y)
      ensures y + 1 == old(total) ==> Lines() == old(Lines())[..y]
    {
      hide Line, Shape, Lines;
      RowsFit();
      ghost var lines, line, next := Lines(), Line(y), Line(y + 1);
      MoveTail(y, lengths[y], y + 1, 0);
      assert Line(y) == line + next;
      ShiftUp(y + 1);
      RowsFit();
      total := total - 1;
      if y + 1 < old(total) && forall i | y + 1 < i < old(total) :: NulFree(old(Line(i))) {
        assert forall i | y < i < total :: Line(i) == lines[i + 1];
        assert Lines() == Joined(lines, y);
      }
    }

    /** nano_handle_backspace. */
    method Backspace()
      requires Sane()
      modifies this, rows, lengths
      ensures Sane() && dirty && (old(Valid()) ==> Valid() && IsText(old(Content())))
      ensures old(Valid() && (cursorX > 0 || Movable(cursorY + 1))) ==> Content() == NanoText.Backspace(old(Content()))
      ensures !old(Valid()) ==>
                Lines() == if total < old(total) then old(Lines())[..total] else old(Lines())
      ensures !old(Valid()) ==> cursorY == total && old(total) - 1 <= total <= old(total)
    {
      hide Line, Shape, Lines, NulFree;
      ghost var valid := Valid();
      if valid { ContentIsText(); }
      RowsFit();
      ghost var lines := Lines();
      if cursorX > 0 {
        RemoveChar(cursorY, cursorX - 1, lengths[cursorY]);
        RowsFit();
        cursorX := cursorX - 1;
      } else if cursorY > 0 {
        var prev := lengths[cursorY - 1];
        if prev + lengths[cursorY] < LINE_SIZE {
          if valid { assert Joinable(Content(), cursorY - 1); }
          JoinRows(cursorY - 1);
          RowsFit();
          cursorY := cursorY - 1;
          cursorX := prev;
        }
      }
      dirty := true;
    }

    /** nano_handle_delete. */
    method Delete()
      requires Sane()
      modifies this, rows, lengths
      ensures Sane() && (old(Valid()) ==> Valid() && IsText(old(Content())))
      ensures !old(Valid()) ==> Lines() == old(Lines()) && cursorY == old(cursorY) && dirty == old(dirty)
      ensures old(Valid() && (cursorX < |Line(cursorY)| || Movable(cursorY + 2))) ==> Content() == NanoText.Delete(old(Content()))
      ensures old(dirty) ==> dirty
      ensures !dirty ==> Content() == old(Content())
    {
      hide Shape, Lines, IsText;
      if cursorY >= total { return; }
      ContentIsText();
      RowsFit();
      ghost var lines := Lines();
      var n := lengths[cursorY];
      if cursorX < n {
        RemoveChar(cursorY, cursorX, n - 1);
        RowsFit();
        dirty := true;
      } else if cursorY < total - 1 {
        if n + lengths[cursorY + 1] < LINE_SIZE {
          assert Joinable(Content(), cursorY);
          JoinRows(cursorY);
          RowsFit();
          dirty := true;
        }
      }
    }

    /** Row `y` is split at column `x`. The row behind the last line becomes a line by that. */
    method SplitRow(y: nat, x: nat)
      requires Shape() && y <= total < MAX_LINES && x <= |Line(y)| && y + 1 < MAX_LINES
      modifies rows, lengths, `total
      ensures Shape() && total == old(total) + 1 && Line(y) == old(Line(y))[..x]
      ensures y < old(total) && (forall i | y < i < old(total) :: NulFree(old(Line(i)))) ==>
                Lines() == old(Lines())[..y] + [old(Line(y))[..x], old(Line(y))[x..]] + old(Lines())[y + 1..]
      ensures y == old(total) ==> Lines() == old(Lines()) + [old(Line(y))[..x]]
    {
      hide Line, Shape, Lines, NulFree;
      RowsFit();
      ghost var lines, line := Lines(), Line(y);
      if y < total { ShiftDown(y + 1); }
      assert Line(y) == line;
      RowsFit();
      MoveTail(y + 1, 0, y, x);
      RowsFit();
      CutRow(y, x);
      total := total + 1;
      if y == old(total) {
        assert Lines() == lines + [line[..x]];
      } else if forall i | y < i < old(total) :: NulFree(old(Line(i))) {
        forall i | y + 1 < i < total ensures Lines()[i] == lines[i - 1] {
        }
        SplitLines(lines, Lines(), y, x);
      }
    }

    /** nano_handle_enter. On row 999 behind 999 lines it would write behind the array. */
    method Enter()
      requires Sane() && (cursorY < total || total < MAX_LINES - 1)
      modifies this, rows, lengths
      ensures Sane() && (old(Valid()) ==> Valid() && IsText(old(Content())))
      ensures old(Valid() && Movable(cursorY + 1)) ==> Content() == NanoText.Enter(old(Content()))
      ensures !old(Valid()) ==>
                Lines() == if old(total) < MAX_LINES then old(Lines()) + [old(Line(cursorY))[..old(cursorX)]] else old(Lines())
      ensures !old(Valid()) ==> cursorY == total
      ensures dirty <==> old(dirty) || old(total) < MAX_LINES
      ensures !dirty ==> Content() == old(Content())
    {
      hide Line, Shape, Lines;
      ghost var valid := Valid();
      if valid { ContentIsText(); }
      RowsFit();
      if total >= MAX_LINES { return; }
      SplitRow(cursorY, cursorX);
      RowsFit();
      cursorY := cursorY + 1;
      cursorX := 0;
      dirty := true;
    }

    method CutRow(y: nat, x: nat)
      requires Shape() && y < MAX_LINES && x <= lengths[y]
      modifies rows, lengths
      ensures Shape() && forall i | 0 <= i < MAX_LINES && i != y :: Line(i) == old(Line(i))
      ensures Line(y) == old(Line(y))[..x]
    {
      rows[y, x] := NUL;
      lengths[y] := x;
      assert Line(y) == old(Line(y))[..x];
      forall i | 0 <= i < MAX_LINES && i != y ensures Line(i) == old(Line(i)) {
      }
    }

    // ---------------------------------------------------------------- cursor

    /** nano_move_cursor. Without a line it would read in front of the array. */
    method MoveCursor(dx: int, dy: int)
      requires Sane() && total > 0
      modifies `cursorX, `cursorY
      ensures Valid() && Lines() == old(Lines())
      ensures old(Valid()) ==> IsText(old(Content())) && Content() == NanoText.MoveCursor(old(Content()), dx, dy)
    {
      if Valid() { ContentIsText(); }
      var x, y := cursorX + dx, cursorY + dy;
      if y < 0 { y := 0; }
      if y >= total { y := total - 1; }
      if x < 0 { x := 0; }
      if x > lengths[y] { x := lengths[y]; }
      cursorX, cursorY := x, y;
    }

    /** nano_page_scroll. */
    method PageScroll(direction: int)
      requires Sane()
      modifies `cursorX, `cursorY
      ensures Sane() && Lines() == old(Lines()) && (Valid() <==> total > 0)
      ensures old(Valid()) ==> IsText(old(Content())) && Content() == NanoText.PageScroll(old(Content()), direction)
    {
      hide IsText, Lines;
      ghost var lines := Lines();
      if Valid() { ContentIsText(); }
      var step := VIEWPORT_HEIGHT - 1;
      var y: int := cursorY;
      if direction < 0 {
        y := y - step;
        if y < 0 { y := 0; }
      } else {
        y := y + step;
        if y >= total { y := total - 1; }
        if y < 0 { y := 0; }
      }
      cursorY := y;
      if cursorX > lengths[cursorY] { cursorX := lengths[cursorY]; }
      assert Lines() == lines;
    }

    /** What a key must not be in a buffer whose cursor stands behind the last line: there the arrow keys read in front of
        the array when there is no line at all, and Enter writes behind it when there are 999. */
    predicate Defined(scancode: nat)
      reads `total, `cursorY
    {
      && (total == 0 ==> scancode == KEY_BACKSPACE || scancode == KEY_ENTER || !IsArrow(scancode))
      && (cursorY == total == MAX_LINES - 1 ==> scancode != KEY_ENTER)
    }

    /** The switch of nano_handle_scancode over the keys that edit or move. */
    method Type(scancode: nat, ascii: byte)
      requires Sane() && Defined(scancode)
      modifies this, rows, lengths
      ensures Sane() && (old(dirty) ==> dirty)
      ensures !dirty ==> Lines() == old(Lines())
      ensures old(Valid()) ==> Valid() && IsText(old(Content()))
      ensures old(Valid() && AllNulFree(Lines())) ==>
                AllNulFree(Lines()) && Content() == Typed(old(Content()), scancode, ascii)
      ensures !old(Valid()) && !Editing(scancode) ==> Lines() == old(Lines())
      ensures IsCharacter(scancode, ascii) ==> dirty
    {
      hide Line, Shape, Lines, NulFree, IsText, NanoText.InsertChar, NanoText.Backspace, NanoText.Delete, NanoText.Enter,
           NanoText.MoveCursor, NanoText.PageScroll;
      if Valid() {
        ContentIsText();
        if AllNulFree(Lines()) {
          NulFreeIsMovable();
          TypedNulFree(Content(), scancode, ascii);
        }
      }
      if scancode == KEY_BACKSPACE {
        Backspace();
      } else if scancode == KEY_ENTER {
        Enter();
      } else if IsKey(scancode, KEY_DELETE) {
        Delete();
      } else if IsKey(scancode, KEY_UP) {
        MoveCursor(0, -1);
      } else if IsKey(scancode, KEY_DOWN) {
        MoveCursor(0, 1);
      } else if IsKey(scancode, KEY_LEFT) {
        MoveCursor(-1, 0);
      } else if IsKey(scancode, KEY_RIGHT) {
        MoveCursor(1, 0);
      } else if IsKey(scancode, KEY_HOME) {
        LineStart();
      } else if IsKey(scancode, KEY_END) {
        LineEnd();
      } else if IsKey(scancode, KEY_PAGE_UP) {
        PageScroll(-1);
      } else if IsKey(scancode, KEY_PAGE_DOWN) {
        PageScroll(1);
      } else if IsPrintable(ascii) {
        InsertSome(ascii, 1);
      } else if ascii == TAB {
        InsertSome(BLANK, 4);
      }
    }

    /** nano_move_to_line_start. */
    method LineStart()
      requires Sane()
      modifies `cursorX
      ensures Sane() && (Valid() <==> old(Valid())) && Lines() == old(Lines()) && Content() == old(Content()).(x := 0)
    {
      cursorX := 0;
    }

    /** nano_move_to_line_end. */
    method LineEnd()
      requires Sane()
      modifies `cursorX
      ensures Sane() && (Valid() <==> old(Valid())) && Lines() == old(Lines())
      ensures Content() == if Valid() then old(Content()).(x := |Lines()[cursorY]|) else old(Content())
    {
      if cursorY < total { cursorX := lengths[cursorY]; }
    }

    /** `n` times the same character, as the loop for the tab key does it. */
    method InsertSome(c: byte, n: nat)
      requires Sane() && IsPlain(c)
      modifies this, rows, lengths
      ensures Sane() && dirty == (old(dirty) || n > 0)
      ensures old(Valid()) ==> Valid() && IsText(old(Content())) && Content() == InsertTimes(old(Content()), c, n)
      ensures !old(Valid()) ==> Lines() == old(Lines())
    {
      if Valid() { ContentIsText(); }
      for i := 0 to n
        invariant Sane() && (old(Valid()) <==> Valid()) && dirty == (old(dirty) || i > 0)
        invariant old(Valid()) ==> Content() == InsertTimes(old(Content()), c, i)
        invariant !old(Valid()) ==> Lines() == old(Lines())
      {
        InsertChar(c);
      }
    }

    // ---------------------------------------------------------------- loading and saving

    method PutChar(line: nat, pos: nat, c: byte)
      requires Shape() && line < MAX_LINES && pos < MAX_LENGTH && IsPlain(c)
      modifies rows
      ensures Shape() && forall i | 0 <= i < MAX_LINES && i != line :: Line(i) == old(Line(i))
      ensures Cells(line, pos + 1) == old(Cells(line, pos)) + [c]
    {
      rows[line, pos] := c;
      forall i | 0 <= i < MAX_LINES && i != line ensures Line(i) == old(Line(i)) {
      }
    }

    /** The row is ended behind its first `n` characters. */
    method EndLine(line: nat, n: nat)
      requires Shape() && line < MAX_LINES && n <= MAX_LENGTH
      modifies rows, lengths
      ensures Shape() && forall i | 0 <= i < MAX_LINES && i != line :: Line(i) == old(Line(i))
      ensures Line(line) == old(Cells(line, n))
    {
      rows[line, n] := NUL;
      lengths[line] := n;
      assert Line(line) == old(Cells(line, n));
      forall i | 0 <= i < MAX_LINES && i != line ensures Line(i) == old(Line(i)) {
      }
    }

    /** What nano_init_editor resets. */
    method Reset()
      requires Shape()
      modifies this, rows, lengths
      ensures Shape() && !dirty && cursorX == 0 && cursorY == 0
    {
      cursorX, cursorY, dirty, total := 0, 0, false, 0;
      for i := 0 to MAX_LINES
        invariant Shape() && !dirty && cursorX == 0 && cursorY == 0
      {
        EndLine(i, 0);
      }
    }

    /** The branch of nano_init_editor for a file that is missing, empty or unreadable. */
    method StartEmpty()
      requires Shape() && cursorX == 0 && cursorY == 0
      modifies rows, lengths, `total
      ensures Valid() && Lines() == [[]]
    {
      EndLine(0, 0);
      total := 1;
    }

    /** The loop of nano_init_editor over the bytes of the file. */
    method Load(io: array<byte>, size: nat)
      requires Shape() && cursorX == 0 && cursorY == 0 && size <= io.Length
      modifies rows, lengths, `total
      ensures Shape() && total <= MAX_LINES && Lines() == Parse(io[..size])
      ensures Sane() && (Lines() != [] <==> Valid())
    {
      hide Shape, Line, Lines, Cells, NanoText.Load;
      ghost var l := NanoText.Load([]);
      LoadNothing();
      var line, pos, i := 0, 0, 0;
      assert io[..0] == [];
      while i < size && line < MAX_LINES
        invariant 0 <= i <= size && line <= MAX_LINES && pos <= MAX_LENGTH && Shape()
        invariant |l.lines| == line && |l.current| == pos && l == NanoText.Load(io[..i])
        invariant line == MAX_LINES ==> pos == 0
        invariant forall k | 0 <= k < line :: Line(k) == l.lines[k]
        invariant line < MAX_LINES ==> Cells(line, pos) == l.current
      {
        var c := io[i];
        assert io[..i + 1] == io[..i] + [c];
        LoadNext(io[..i], c);
        l := LoadByte(l, c);
        if c == NL {
          EndLine(line, pos);
          line := line + 1;
          pos := 0;
        } else if c != CR && pos < LINE_SIZE - 1 {
          PutChar(line, pos, c);
          pos := pos + 1;
        }
        i := i + 1;
      }
      FullLoad(io[..i], io[..size]);
      if pos > 0 && line < MAX_LINES {
        EndLine(line, pos);
        line := line + 1;
      }
      total := line;
      assert Lines() == Parse(io[..size]);
      RowsFit();
    }

    /** The loops of nano_save_file. */
    method Serialise(io: array<byte>) returns (size: nat)
      requires Shape() && total <= MAX_LINES && io.Length == IO_SIZE
      modifies io
      ensures size < IO_SIZE && io[..size] == NanoText.Serialise(Lines())
    {
      hide Shape, Line, Lines, NanoText.Serialise;
      RowsFit();
      ghost var lines := Lines();
      size := 0;
      var i := 0;
      SerialiseNothing();
      assert io[..0] == [] && lines[..0] == [];
      while i < total && size < IO_SIZE - 1
        invariant 0 <= i <= total && size < IO_SIZE && Shape() && Lines() == lines
        invariant io[..size] == NanoText.Serialise(lines[..i])
      {
        SerialiseNext(lines, i);
        size := CopyLineOut(io, size, i);
        if size < IO_SIZE - 1 {
          ghost var before := io[..size];
          io[size] := NL;
          size := size + 1;
          assert io[..size] == before + [NL];
        }
        i := i + 1;
      }
      if i < total {
        SerialiseStops(lines, i);
      } else {
        assert lines[..i] == lines;
      }
    }

    method CopyLineOut(io: array<byte>, start: nat, i: nat) returns (size: nat)
      requires Shape() && i < MAX_LINES && io.Length == IO_SIZE && start < IO_SIZE - 1
      modifies io
      ensures start <= size < IO_SIZE - 1 && io[..size] == old(io[..start]) + Room(Line(i), start)
    {
      ghost var line := Line(i);
      size := start;
      var j := 0;
      while j < lengths[i] && size < IO_SIZE - 2
        invariant 0 <= j <= |line| && size == start + j < IO_SIZE - 1 && Line(i) == line && Shape()
        invariant io[..size] == old(io[..start]) + line[..j]
      {
        ghost var before := io[..size];
        io[size] := rows[i, j];
        assert io[..size + 1] == before + [line[j]];
        size := size + 1;
        j := j + 1;
      }
      assert line[..j] == Room(line, start);
    }
  }

  /** A buffer of 1000 lines ignores the rest of the file. */
  lemma {:induction false} FullLoad(b: seq<byte>, all: seq<byte>)
    requires b <= all && (|NanoText.Load(b).lines| >= MAX_LINES || b == all)
    ensures NanoText.Load(all) == NanoText.Load(b)
    decreases |all|
  {
    if b != all {
      FullLoad(b, all[..|all| - 1]);
    }
  }

  lemma SerialiseNothing()
    ensures NanoText.Serialise([]) == []
  {
  }
}
