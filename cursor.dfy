/** The cursor state machine of `editorMoveCursor` and of the navigation
    branches of `editorProcessKeypress`, as functions of the rows and the
    cursor. Line `|rows|` is the sentinel line past the end of the file. */
module Cursor {
  import opened RowStore
  import opened KeyDecoder

  /** `(E.cx, E.cy)`: a byte index into a line and a line index. */
  datatype Pos = Pos(cx: int, cy: int)

  /** The length of line `cy`; 0 on the sentinel line. */
  function LineLength(rows: seq<Row>, cy: int): nat
    requires 0 <= cy <= |rows|
  {
    if cy < |rows| then |rows[cy].chars| else 0
  }

  /** The cursor is on a line of the file or on the sentinel line, and at
      most at the end of that line. */
  predicate InBounds(rows: seq<Row>, p: Pos) {
    0 <= p.cy <= |rows| && 0 <= p.cx <= LineLength(rows, p.cy)
  }

  /** What `editorMoveCursor` needs: a line index that it may look up (the
      column may be past the end of the line; the final clamp fixes it). */
  predicate OnSomeLine(rows: seq<Row>, p: Pos) {
    0 <= p.cy <= |rows| && 0 <= p.cx
  }

  /** `editorMoveCursor`: one arrow-key step, then the column is clamped to
      the length of the line the cursor ended on. Other keys only clamp. */
  function Move(rows: seq<Row>, p: Pos, key: Key): (r: Pos)
    requires OnSomeLine(rows, p)
    ensures InBounds(rows, r)
  {
    var stepped :=
      match key
      case ArrowLeft =>
        if p.cx != 0 then Pos(p.cx - 1, p.cy)
        else if p.cy > 0 then Pos(|rows[p.cy - 1].chars|, p.cy - 1)
        else p
      case ArrowRight =>
        if p.cy < |rows| && p.cx < |rows[p.cy].chars| then Pos(p.cx + 1, p.cy)
        else if p.cy < |rows| && p.cx == |rows[p.cy].chars| then Pos(0, p.cy + 1)
        else p
      case ArrowUp => if p.cy != 0 then Pos(p.cx, p.cy - 1) else p
      case ArrowDown => if p.cy < |rows| then Pos(p.cx, p.cy + 1) else p
      case _ => p;
    var rowlen := LineLength(rows, stepped.cy);
    if stepped.cx > rowlen then Pos(rowlen, stepped.cy) else stepped
  }

  /** Left at the start of the file and Up on the first line do nothing. */
  lemma MoveAtTop(rows: seq<Row>, p: Pos)
    requires InBounds(rows, p) && p.cy == 0
    ensures Move(rows, p, ArrowUp) == p
    ensures p.cx == 0 ==> Move(rows, p, ArrowLeft) == p
  {
  }

  /** Right at the end of a line of the file goes to the start of the next
      line; Left at the start of a line goes to the end of the previous one. */
  lemma MoveWraps(rows: seq<Row>, p: Pos)
    requires InBounds(rows, p)
    ensures p.cy < |rows| && p.cx == |rows[p.cy].chars| ==>
      Move(rows, p, ArrowRight) == Pos(0, p.cy + 1)
    ensures p.cx == 0 && p.cy > 0 ==>
      Move(rows, p, ArrowLeft) == Pos(|rows[p.cy - 1].chars|, p.cy - 1)
  {
  }

  /** Right undoes Left everywhere except at the start of the file. */
  lemma RightUndoesLeft(rows: seq<Row>, p: Pos)
    requires InBounds(rows, p) && (p.cx > 0 || p.cy > 0)
    ensures Move(rows, Move(rows, p, ArrowLeft), ArrowRight) == p
  {
  }

  /** A key that is not an arrow leaves a cursor in bounds where it is. */
  lemma MoveOtherKey(rows: seq<Row>, p: Pos, key: Key)
    requires InBounds(rows, p)
    requires key !in {ArrowLeft, ArrowRight, ArrowUp, ArrowDown}
    ensures Move(rows, p, key) == p
  {
  }

  /** `n` steps with the same key, as the PageUp/PageDown loop makes them. */
  function Repeat(rows: seq<Row>, p: Pos, key: Key, n: nat): (r: Pos)
    requires OnSomeLine(rows, p)
    ensures OnSomeLine(rows, r)
    ensures n >= 1 ==> InBounds(rows, r)
    decreases n
  {
    if n == 0 then p else Move(rows, Repeat(rows, p, key, n - 1), key)
  }

  /** `n` steps up end on line `cy - n`, or on the first line; the column
      never grows. */
  lemma {:induction false} RepeatUp(rows: seq<Row>, p: Pos, n: nat)
    requires OnSomeLine(rows, p)
    ensures var r := Repeat(rows, p, ArrowUp, n);
      r.cy == (if p.cy >= n then p.cy - n else 0) && r.cx <= p.cx
  {
    if n > 0 {
      RepeatUp(rows, p, n - 1);
    }
  }

  /** `n` steps down end on line `cy + n`, or on the sentinel line; the
      column never grows. */
  lemma {:induction false} RepeatDown(rows: seq<Row>, p: Pos, n: nat)
    requires OnSomeLine(rows, p)
    ensures var r := Repeat(rows, p, ArrowDown, n);
      r.cy == (if p.cy + n <= |rows| then p.cy + n else |rows|) && r.cx <= p.cx
  {
    if n > 0 {
      RepeatDown(rows, p, n - 1);
    }
  }

  /** Where PageDown first puts the cursor: the last screen line, or the
      sentinel line if the file ends before it. */
  function PageBottom(rows: seq<Row>, rowoff: int, screenrows: int): (cy: int)
    requires 0 <= rowoff <= |rows| && screenrows >= 1
    ensures rowoff <= cy <= |rows|
  {
    if rowoff + screenrows - 1 > |rows| then |rows| else rowoff + screenrows - 1
  }

  /** The cursor after `editorProcessKeypress` has handled `key` (the quit
      key, Delete and every other byte leave it where it is). */
  function Keypress(rows: seq<Row>, p: Pos, rowoff: int, screenrows: int, key: Key): (r: Pos)
    requires InBounds(rows, p)
    requires 0 <= rowoff <= |rows| && screenrows >= 1
    ensures InBounds(rows, r)
  {
    match key
    case HomeKey => Pos(0, p.cy)
    case EndKey => if p.cy < |rows| then Pos(|rows[p.cy].chars|, p.cy) else p
    case PageUp => Repeat(rows, Pos(p.cx, rowoff), ArrowUp, screenrows)
    case PageDown => Repeat(rows, Pos(p.cx, PageBottom(rows, rowoff, screenrows)), ArrowDown, screenrows)
    case ArrowUp => Move(rows, p, key)
    case ArrowDown => Move(rows, p, key)
    case ArrowLeft => Move(rows, p, key)
    case ArrowRight => Move(rows, p, key)
    case _ => p
  }

  /** Home and End put the cursor at the start and at the end of its line. */
  lemma HomeEnd(rows: seq<Row>, p: Pos, rowoff: int, screenrows: int)
    requires InBounds(rows, p)
    requires 0 <= rowoff <= |rows| && screenrows >= 1
    ensures Keypress(rows, p, rowoff, screenrows, HomeKey) == Pos(0, p.cy)
    ensures Keypress(rows, p, rowoff, screenrows, EndKey) == Pos(LineLength(rows, p.cy), p.cy)
  {
  }

  /** PageUp lands a screen above the top of the window, PageDown a screen
      below its bottom, each stopped by the ends of the file. */
  lemma PageMoves(rows: seq<Row>, p: Pos, rowoff: int, screenrows: int)
    requires InBounds(rows, p)
    requires 0 <= rowoff <= |rows| && screenrows >= 1
    ensures var r := Keypress(rows, p, rowoff, screenrows, PageUp);
      r.cy == (if rowoff >= screenrows then rowoff - screenrows else 0) && r.cx <= p.cx
    ensures var r := Keypress(rows, p, rowoff, screenrows, PageDown);
      r.cy == (if rowoff + 2 * screenrows - 1 <= |rows| then rowoff + 2 * screenrows - 1 else |rows|)
      && r.cx <= p.cx
  {
    RepeatUp(rows, Pos(p.cx, rowoff), screenrows);
    RepeatDown(rows, Pos(p.cx, PageBottom(rows, rowoff, screenrows)), screenrows);
  }
}
