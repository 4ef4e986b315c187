/** The editor state `E` and the operations that update it in place:
    loading a file, scrolling, drawing a frame and handling a key press. */
module Editor {
  import opened Ascii
  import opened KeyDecoder
  import opened RowStore
  import opened Cursor
  import opened Screen
  import opened AppendBuffer

  /** Every row's render is derived from its line. */
  ghost predicate RowsRendered(rows: seq<Row>) {
    forall i :: 0 <= i < |rows| ==> rows[i] == NewRow(rows[i].chars)
  }

  /** `struct editorConfig`. The row count `numrows` is `|rows|`. */
  class Config {
    var cx: int
    var cy: int
    var rx: int
    var rowoff: int
    var coloff: int
    var screenrows: int
    var screencols: int
    var rows: seq<Row>
    var filename: Option<seq<Byte>>

    /** The window has at least one text line and one column, the top line
        of the window is in the file or is the sentinel line, the cursor is
        in bounds, and every render is derived from its line. */
    ghost predicate Valid()
      reads this
    {
      && screenrows >= 1 && screencols >= 1
      && 0 <= rowoff <= |rows| && 0 <= coloff
      && InBounds(rows, Pos(cx, cy))
      && RowsRendered(rows)
    }

    /** `initEditor`, given the window size `getWindowSize` reported; two
        lines are kept for the status and message bars. */
    constructor (windowRows: int, windowCols: int)
      requires windowRows >= 3 && windowCols >= 1
      ensures Valid()
      ensures cx == 0 && cy == 0 && rx == 0 && rowoff == 0 && coloff == 0
      ensures rows == [] && filename == None
      ensures screenrows == windowRows - 2 && screencols == windowCols
    {
      cx, cy, rx := 0, 0, 0;
      rowoff, coloff := 0, 0;
      rows := [];
      filename := None;
      screenrows := windowRows - 2;
      screencols := windowCols;
    }

    /** `editorAppendRow`: one more row at the end, with its render derived
        at once; the rows before it are untouched. */
    method AppendRow(s: seq<Byte>)
      requires Valid()
      modifies this`rows
      ensures Valid()
      ensures rows == old(rows) + [NewRow(s)]
    {
      var render := UpdateRow(s);
      rows := rows + [Row(s, render)];
    }

    /** `editorOpen`, the file's lines being given as `getline` returns them:
        each is appended without its trailing LF and CR bytes. */
    method Open(name: seq<Byte>, lines: seq<seq<Byte>>)
      requires Valid()
      modifies this`rows, this`filename
      ensures Valid()
      ensures filename == Some(name)
      ensures rows == old(rows) + LoadRows(lines)
    {
      filename := Some(name);
      var i := 0;
      while i < |lines|
        invariant 0 <= i <= |lines|
        invariant Valid()
        invariant filename == Some(name)
        invariant rows == old(rows) + LoadRows(lines[..i])
      {
        assert lines[..i + 1][..i] == lines[..i];
        var linelen := TrimmedLength(lines[i]);
        AppendRow(lines[i][..linelen]);
        i := i + 1;
      }
      assert lines[..i] == lines;
    }

    /** `editorScroll`: recomputes the render column of the cursor and moves
        the window just enough that the cursor is inside it. */
    method Scroll()
      requires Valid()
      modifies this`rx, this`rowoff, this`coloff
      ensures Valid()
      ensures rx == if cy < |rows| then RenderColumn(rows[cy].chars, cx) else 0
      ensures rowoff == Snap(old(rowoff), cy, screenrows)
      ensures coloff == Snap(old(coloff), rx, screencols)
      ensures rowoff <= cy < rowoff + screenrows
      ensures coloff <= rx < coloff + screencols
    {
      rx := 0;
      if cy < |rows| {
        rx := RowCxToRx(rows[cy], cx);
      }
      if cy < rowoff {
        rowoff := cy;
      }
      if cy >= rowoff + screenrows {
        rowoff := cy - screenrows + 1;
      }
      if rx < coloff {
        coloff := rx;
      }
      if rx >= coloff + screencols {
        coloff := rx - screencols + 1;
      }
    }

    /** `editorDrawRows`: appends one line per screen row. */
    method DrawRows(ab: Buffer)
      requires 0 <= rowoff && 0 <= coloff && 0 <= screenrows && 0 <= screencols
      modifies ab
      ensures ab.b == old(ab.b) + DrawnRows(rows, rowoff, coloff, screenrows, screencols, screenrows)
    {
      var y := 0;
      while y < screenrows
        invariant 0 <= y <= screenrows
        invariant ab.b == old(ab.b) + DrawnRows(rows, rowoff, coloff, screenrows, screencols, y)
      {
        ghost var drawn := DrawnRows(rows, rowoff, coloff, screenrows, screencols, y);
        ghost var text := ScreenLineText(rows, y, rowoff, coloff, screenrows, screencols);
        DrawRow(ab, y);
        AppendTwice(old(ab.b), drawn, text);
        ab.Append(CLEAR_LINE);
        AppendTwice(old(ab.b), drawn + text, CLEAR_LINE);
        ab.Append(CRLF);
        AppendTwice(old(ab.b), drawn + text + CLEAR_LINE, CRLF);
        y := y + 1;
      }
    }

    /** The text of screen line `y` in `editorDrawRows`: the sentinel `~`
        or the banner past the end of the file, else the visible part of the
        row's render. */
    method DrawRow(ab: Buffer, y: int)
      requires 0 <= y && 0 <= rowoff && 0 <= coloff && 0 <= screenrows && 0 <= screencols
      modifies ab
      ensures ab.b == old(ab.b) + ScreenLineText(rows, y, rowoff, coloff, screenrows, screencols)
    {
      var filerow := y + rowoff;
      if filerow >= |rows| {
        if |rows| == 0 && y == screenrows / 3 {
          DrawWelcome(ab);
        } else {
          ab.Append(TILDE_LINE);
        }
      } else {
        var render := rows[filerow].render;
        var len := |render| - coloff;
        if len < 0 {
          len := 0;
        }
        if len > screencols {
          len := screencols;
        }
        ab.Append(if len == 0 then [] else render[coloff .. coloff + len]);
      }
    }

    /** The banner branch of `editorDrawRows`: a `~` and spaces to centre
        the banner, then the banner cut to the screen width. */
    method DrawWelcome(ab: Buffer)
      requires screencols >= 0
      modifies ab
      ensures ab.b == old(ab.b) + WelcomeLine(screencols)
    {
      var cols := screencols;
      var welcomelen := |WELCOME|;
      if welcomelen > cols {
        welcomelen := cols;
      }
      var padding := (cols - welcomelen) / 2;
      WelcomeLineParts(cols, welcomelen, padding);
      ghost var line, before := WelcomeLine(cols), ab.b;
      ghost var margin := padding;
      if padding != 0 {
        ab.Append(TILDE_LINE);
        padding := padding - 1;
      }
      ghost var start, count := ab.b, padding;
      while padding != 0
        invariant 0 <= padding <= count
        invariant ab.b == start + Spaces(count - padding)
      {
        ab.Append([SPACE]);
        padding := padding - 1;
      }
      ghost var lead: seq<Byte> := if margin != 0 then TILDE_LINE + Spaces(margin - 1) else [];
      assert ab.b == before + lead;
      ab.Append(WELCOME[..welcomelen]);
      AppendTwice(before, lead, WELCOME[..welcomelen]);
    }

    /** `editorDrawStatusBar`: the file name and line count on the left, the
        cursor line on the right, in inverted colours. */
    method DrawStatusBar(ab: Buffer)
      requires 0 <= cy && 0 <= screencols
      modifies ab
      ensures ab.b == old(ab.b)
                      + StatusBar(StatusText(filename, |rows|), LineStatusText(cy, |rows|), screencols)
    {
      ab.Append(INVERT);
      var status := StatusText(filename, |rows|);
      var rstatus := LineStatusText(cy, |rows|);
      DrawStatusLine(ab, status, rstatus);
      ghost var line := StatusLine(status, rstatus, screencols);
      AppendTwice(old(ab.b), INVERT, line);
      ab.Append(NORMAL);
      AppendTwice(old(ab.b), INVERT + line, NORMAL);
      ab.Append(CRLF);
      AppendTwice(old(ab.b), INVERT + line + NORMAL, CRLF);
    }

    /** The middle of `editorDrawStatusBar`: the left part cut to the screen
        width, then spaces until the right part would end at the right edge
        (when it fits) or until the edge. */
    method DrawStatusLine(ab: Buffer, status: seq<Byte>, rstatus: seq<Byte>)
      requires 0 <= screencols
      modifies ab
      ensures ab.b == old(ab.b) + StatusLine(status, rstatus, screencols)
    {
      var cols := screencols;
      var len := |status|;
      var rlen := |rstatus|;
      if len > cols {
        len := cols;
      }
      ab.Append(status[..len]);
      ghost var start, len0 := ab.b, len;
      ghost var tail := if rlen <= cols - len0 then Spaces(cols - len0 - rlen) + rstatus else Spaces(cols - len0);
      while len < cols
        invariant len0 <= len <= cols
        invariant ab.b == start + Spaces(len - len0)
        invariant rlen <= cols - len || rlen > cols - len0
      {
        if cols - len == rlen {
          ab.Append(rstatus);
          AppendTwice(start, Spaces(len - len0), rstatus);
          break;
        }
        ab.Append([SPACE]);
        AppendTwice(start, Spaces(len - len0), [SPACE]);
        assert Spaces(len - len0) + [SPACE] == Spaces(len + 1 - len0);
        len := len + 1;
      }
      assert ab.b == start + tail;
      AppendTwice(old(ab.b), status[..len0], tail);
    }

    /** `editorRefreshScreen`: scrolls, then composes the whole frame in one
        buffer and returns what is written to the terminal. `messageBar` is
        what `editorDrawMessageBar` appends. */
    method RefreshScreen(messageBar: seq<Byte>) returns (frame: seq<Byte>)
      requires Valid()
      modifies this`rx, this`rowoff, this`coloff
      ensures Valid()
      ensures rx == if cy < |rows| then RenderColumn(rows[cy].chars, cx) else 0
      ensures rowoff == Snap(old(rowoff), cy, screenrows)
      ensures coloff == Snap(old(coloff), rx, screencols)
      ensures 1 <= cy - rowoff + 1 <= screenrows
      ensures 1 <= rx - coloff + 1 <= screencols
      ensures frame == Frame(rows, filename, cy, rx, rowoff, coloff, screenrows, screencols, messageBar)
    {
      Scroll();
      frame := DrawFrame(messageBar);
    }

    /** The drawing part of `editorRefreshScreen`, once the window contains
        the cursor: hide the cursor, home, the text rows, the status bar, the
        message bar, the cursor placed and shown again. */
    method DrawFrame(messageBar: seq<Byte>) returns (frame: seq<Byte>)
      requires 0 <= rowoff <= cy && 0 <= coloff <= rx
      requires 0 <= screenrows && 0 <= screencols
      ensures frame == Frame(rows, filename, cy, rx, rowoff, coloff, screenrows, screencols, messageBar)
    {
      var ab := new Buffer();
      ab.Append(HIDE_CURSOR);
      assert ab.b == HIDE_CURSOR;
      ab.Append(CURSOR_HOME);
      DrawRows(ab);
      DrawStatusBar(ab);
      ab.Append(messageBar);
      ab.Append(CursorPosition(cy - rowoff + 1, rx - coloff + 1));
      ab.Append(SHOW_CURSOR);
      frame := ab.b;
    }

    /** `editorMoveCursor`. */
    method MoveCursor(key: Key)
      requires OnSomeLine(rows, Pos(cx, cy))
      modifies this`cx, this`cy
      ensures Pos(cx, cy) == Move(rows, old(Pos(cx, cy)), key)
    {
      var onRow := cy < |rows|;
      match key {
        case ArrowLeft =>
          if cx != 0 {
            cx := cx - 1;
          } else if cy > 0 {
            cy := cy - 1;
            cx := |rows[cy].chars|;
          }
        case ArrowRight =>
          if onRow && cx < |rows[cy].chars| {
            cx := cx + 1;
          } else if onRow && cx == |rows[cy].chars| {
            cy := cy + 1;
            cx := 0;
          }
        case ArrowUp =>
          if cy != 0 {
            cy := cy - 1;
          }
        case ArrowDown =>
          if cy < |rows| {
            cy := cy + 1;
          }
        case _ =>
      }
      var rowlen := if cy < |rows| then |rows[cy].chars| else 0;
      if cx > rowlen {
        cx := rowlen;
      }
    }

    /** `editorProcessKeypress`: reads one key from `input` and acts on it;
        `rest` is the input left for the next key. The quit key is reported
        instead of clearing the screen and exiting. */
    method ProcessKeypress(input: seq<Byte>) returns (quit: bool, rest: seq<Byte>)
      requires Valid() && |input| >= 1
      modifies this`cx, this`cy
      ensures Valid()
      ensures var d := ReadKey(input);
        && rest == input[d.consumed..]
        && quit == (d.key == Char(CTRL_Q))
        && Pos(cx, cy) == Keypress(rows, old(Pos(cx, cy)), rowoff, screenrows, d.key)
    {
      var d := ReadKey(input);
      rest := input[d.consumed..];
      quit := d.key == Char(CTRL_Q);
      MoveForKey(d.key);
    }

    /** The branches of the switch in `editorProcessKeypress` that move the
        cursor; every other key leaves it where it is. */
    method MoveForKey(c: Key)
      requires InBounds(rows, Pos(cx, cy))
      requires 0 <= rowoff <= |rows| && screenrows >= 1
      modifies this`cx, this`cy
      ensures Pos(cx, cy) == Keypress(rows, old(Pos(cx, cy)), rowoff, screenrows, c)
    {
      match c {
        case HomeKey =>
          cx := 0;
        case EndKey =>
          if cy < |rows| {
            cx := |rows[cy].chars|;
          }
        case PageUp =>
          PageMove(c);
        case PageDown =>
          PageMove(c);
        case ArrowUp | ArrowDown | ArrowLeft | ArrowRight =>
          MoveCursor(c);
        case _ =>
      }
    }

    /** The PageUp and PageDown branch of `editorProcessKeypress`: the cursor
        goes to the top (bottom) line of the window, then a screenful of
        steps up (down). */
    method PageMove(c: Key)
      requires c == PageUp || c == PageDown
      requires InBounds(rows, Pos(cx, cy))
      requires 0 <= rowoff <= |rows| && screenrows >= 1
      modifies this`cx, this`cy
      ensures Pos(cx, cy) == Keypress(rows, old(Pos(cx, cy)), rowoff, screenrows, c)
    {
      if c == PageUp {
        cy := rowoff;
        MoveTimes(ArrowUp, screenrows);
      } else {
        cy := rowoff + screenrows - 1;
        if cy > |rows| {
          cy := |rows|;
        }
        MoveTimes(ArrowDown, screenrows);
      }
    }

    /** The `while (times--)` loop of the PageUp and PageDown branch. */
    method MoveTimes(step: Key, times: int)
      requires OnSomeLine(rows, Pos(cx, cy)) && 0 <= times
      modifies this`cx, this`cy
      ensures Pos(cx, cy) == Repeat(rows, old(Pos(cx, cy)), step, times)
    {
      var n := times;
      while n != 0
        invariant 0 <= n <= times
        invariant OnSomeLine(rows, Pos(cx, cy))
        invariant Pos(cx, cy) == Repeat(rows, old(Pos(cx, cy)), step, times - n)
      {
        MoveCursor(step);
        n := n - 1;
      }
    }
  }
}
