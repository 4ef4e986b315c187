/** What one refresh writes to the terminal: the scroll offsets that keep
    the cursor visible (`editorScroll`), the text rows (`editorDrawRows`),
    the status bar (`editorDrawStatusBar`) and the escape sequences around
    them (`editorRefreshScreen`). */
module Screen {
  import opened Ascii
  import opened RowStore

  /** One offset of `editorScroll`: if the cursor coordinate `pos` is
      before the window `[off, off + dim)` the window starts at it; if it is
      past the window, the window ends at it. */
  function Snap(off: int, pos: int, dim: int): (r: int)
    ensures dim >= 1 ==> r <= pos < r + dim
    ensures dim >= 1 && off <= pos < off + dim ==> r == off
  {
    var top := if pos < off then pos else off;
    if pos >= top + dim then pos - dim + 1 else top
  }

  /** Snapping again changes nothing. */
  lemma SnapIdempotent(off: int, pos: int, dim: int)
    requires dim >= 1
    ensures Snap(Snap(off, pos, dim), pos, dim) == Snap(off, pos, dim)
  {
  }

  /** Of all windows that contain `pos`, the snapped one is the nearest to
      the old one: the view moves no further than it must. */
  lemma SnapMovesLeast(off: int, pos: int, dim: int, other: int)
    requires dim >= 1 && other <= pos < other + dim
    ensures var r := Snap(off, pos, dim);
      (if r <= off then off - r else r - off) <= (if other <= off then off - other else other - off)
  {
  }

  /** Non-negative offsets stay non-negative. */
  lemma SnapNonNegative(off: int, pos: int, dim: int)
    requires 0 <= off && 0 <= pos && dim >= 1
    ensures 0 <= Snap(off, pos, dim)
  {
  }

  const TILDE_LINE: seq<Byte> := Bytes("~")
  /** `ESC [ K`, clear to the end of the line. */
  const CLEAR_LINE: seq<Byte> := [ESC] + Bytes("[K")
  const CRLF: seq<Byte> := [CR, LF]
  /** `ESC [ ? 25 l` and `ESC [ ? 25 h`, hide and show the cursor. */
  const HIDE_CURSOR: seq<Byte> := [ESC] + Bytes("[?25l")
  const SHOW_CURSOR: seq<Byte> := [ESC] + Bytes("[?25h")
  /** `ESC [ H`, cursor to the top left corner. */
  const CURSOR_HOME: seq<Byte> := [ESC] + Bytes("[H")
  /** `ESC [ 7 m` and `ESC [ m`, inverted colours on and off. */
  const INVERT: seq<Byte> := [ESC] + Bytes("[7m")
  const NORMAL: seq<Byte> := [ESC] + Bytes("[m")

  /** The welcome banner, `SEX_VERSION` being "0.0.1". */
  const WELCOME: seq<Byte> := Bytes("Simplified Editor Extended -- version 0.0.1")

  /** The banner line of an empty file: the banner cut to the screen width,
      centred, the left margin opened by a `~` when there is one. */
  function WelcomeLine(screencols: nat): seq<Byte> {
    var welcomelen := if |WELCOME| > screencols then screencols else |WELCOME|;
    var padding := (screencols - welcomelen) / 2;
    (if padding != 0 then TILDE_LINE + Spaces(padding - 1) else []) + WELCOME[..welcomelen]
  }

  /** The two parts of the banner line, the margin and the cut banner, as
      `editorDrawRows` computes their widths. */
  lemma WelcomeLineParts(screencols: nat, welcomelen: nat, padding: nat)
    requires welcomelen == if |WELCOME| > screencols then screencols else |WELCOME|
    requires padding == (screencols - welcomelen) / 2
    ensures WelcomeLine(screencols)
            == (if padding != 0 then TILDE_LINE + Spaces(padding - 1) else []) + WELCOME[..welcomelen]
  {
  }

  /** The banner is centred and never wider than the screen: its left
      margin is half of what the banner leaves free, rounded down. */
  lemma WelcomeCentred(screencols: nat)
    ensures var line := WelcomeLine(screencols);
      var shown := if |WELCOME| > screencols then screencols else |WELCOME|;
      var left := |line| - shown;
      && |line| <= screencols
      && line[left..] == WELCOME[..shown]
      && left <= screencols - |line| <= left + 1
      && (left > 0 ==> line[0] == '~' as int)
  {
    var shown := if |WELCOME| > screencols then screencols else |WELCOME|;
    var padding := (screencols - shown) / 2;
    var margin: seq<Byte> := if padding != 0 then TILDE_LINE + Spaces(padding - 1) else [];
    assert |margin| == padding;
    assert WelcomeLine(screencols) == margin + WELCOME[..shown];
    assert (margin + WELCOME[..shown])[padding..] == WELCOME[..shown];
  }

  /** The part of a render that falls in the columns `[coloff, coloff +
      screencols)`; `len` as `editorDrawRows` clamps it. */
  function Visible(render: seq<Byte>, coloff: nat, screencols: nat): seq<Byte> {
    var len := if |render| - coloff < 0 then 0 else |render| - coloff;
    var len' := if len > screencols then screencols else len;
    if len' == 0 then [] else render[coloff .. coloff + len']
  }

  /** The visible part is the render's bytes from `coloff` on, as many as
      exist before the right edge of the window. */
  lemma VisibleWindow(render: seq<Byte>, coloff: nat, screencols: nat)
    ensures var v := Visible(render, coloff, screencols);
      && |v| == (if coloff >= |render| then 0
                 else if |render| - coloff > screencols then screencols
                 else |render| - coloff)
      && forall k :: 0 <= k < |v| ==> v[k] == render[coloff + k]
  {
  }

  /** What screen line `y` shows before its clear-to-end and line break. */
  function ScreenLineText(rows: seq<Row>, y: nat, rowoff: nat, coloff: nat,
                          screenrows: nat, screencols: nat): seq<Byte>
  {
    var filerow := y + rowoff;
    if filerow >= |rows| then
      if |rows| == 0 && y == screenrows / 3 then WelcomeLine(screencols) else TILDE_LINE
    else Visible(rows[filerow].render, coloff, screencols)
  }

  /** Every screen line fits in the screen width. */
  lemma ScreenLineFits(rows: seq<Row>, y: nat, rowoff: nat, coloff: nat,
                       screenrows: nat, screencols: nat)
    requires screencols >= 1
    ensures |ScreenLineText(rows, y, rowoff, coloff, screenrows, screencols)| <= screencols
  {
    if y + rowoff >= |rows| && |rows| == 0 && y == screenrows / 3 {
      WelcomeCentred(screencols);
    }
  }

  /** The first `n` lines `editorDrawRows` appends, each ended by a
      clear-to-end-of-line and CR LF. */
  function DrawnRows(rows: seq<Row>, rowoff: nat, coloff: nat,
                     screenrows: nat, screencols: nat, n: nat): seq<Byte>
  {
    if n == 0 then []
    else DrawnRows(rows, rowoff, coloff, screenrows, screencols, n - 1)
         + ScreenLineText(rows, n - 1, rowoff, coloff, screenrows, screencols)
         + CLEAR_LINE + CRLF
  }

  function Concat(lines: seq<seq<Byte>>): seq<Byte> {
    if lines == [] then [] else Concat(lines[..|lines| - 1]) + lines[|lines| - 1]
  }

  /** The first `n` screen lines one by one, each with its ending. */
  function ScreenLines(rows: seq<Row>, rowoff: nat, coloff: nat,
                       screenrows: nat, screencols: nat, n: nat): (lines: seq<seq<Byte>>)
    ensures |lines| == n
    ensures forall y :: 0 <= y < n ==>
      lines[y] == ScreenLineText(rows, y, rowoff, coloff, screenrows, screencols) + CLEAR_LINE + CRLF
  {
    if n == 0 then []
    else ScreenLines(rows, rowoff, coloff, screenrows, screencols, n - 1)
         + [ScreenLineText(rows, n - 1, rowoff, coloff, screenrows, screencols) + CLEAR_LINE + CRLF]
  }

  /** The drawn rows are exactly `n` lines, each the text of its screen line
      followed by the clear-to-end and CR LF. */
  lemma {:induction false} DrawnRowsLines(rows: seq<Row>, rowoff: nat, coloff: nat,
                                          screenrows: nat, screencols: nat, n: nat)
    ensures DrawnRows(rows, rowoff, coloff, screenrows, screencols, n)
            == Concat(ScreenLines(rows, rowoff, coloff, screenrows, screencols, n))
  {
    if n > 0 {
      DrawnRowsLines(rows, rowoff, coloff, screenrows, screencols, n - 1);
      var lines := ScreenLines(rows, rowoff, coloff, screenrows, screencols, n);
      assert lines[..n - 1] == ScreenLines(rows, rowoff, coloff, screenrows, screencols, n - 1);
      var drawn := DrawnRows(rows, rowoff, coloff, screenrows, screencols, n - 1);
      var text := ScreenLineText(rows, n - 1, rowoff, coloff, screenrows, screencols);
      AppendTwice(drawn, text, CLEAR_LINE);
      AppendTwice(drawn, text + CLEAR_LINE, CRLF);
    }
  }

  /** The left part of the status bar: at most 20 bytes of the file name,
      `[No Name]` without one, and the line count. */
  function StatusText(filename: Option<seq<Byte>>, numrows: nat): seq<Byte> {
    var name := match filename
      case Some(f) => if |f| > 20 then f[..20] else f
      case None => Bytes("[No Name]");
    name + Bytes(" - ") + Decimal(numrows) + Bytes(" lines")
  }

  /** The right part of the status bar: the 1-based cursor line and the
      line count. */
  function LineStatusText(cy: nat, numrows: nat): seq<Byte> {
    Decimal(cy + 1) + Bytes("/") + Decimal(numrows)
  }

  /** The status bar between its colour switches: the left part cut to the
      screen width, then spaces, and the right part flush right when it
      fits. */
  function StatusLine(status: seq<Byte>, rstatus: seq<Byte>, screencols: nat): seq<Byte> {
    var len := if |status| > screencols then screencols else |status|;
    var gap := screencols - len;
    status[..len] + (if |rstatus| <= gap then Spaces(gap - |rstatus|) + rstatus else Spaces(gap))
  }

  /** The status bar in inverted colours. */
  function StatusBar(status: seq<Byte>, rstatus: seq<Byte>, screencols: nat): seq<Byte> {
    INVERT + StatusLine(status, rstatus, screencols) + NORMAL + CRLF
  }

  /** The status line is exactly one screen line wide; it starts with as
      much of the left part as fits, and ends with the right part whenever
      the two fit side by side. */
  lemma StatusLineWidth(status: seq<Byte>, rstatus: seq<Byte>, screencols: nat)
    ensures var line := StatusLine(status, rstatus, screencols);
      && |line| == screencols
      && (|status| <= screencols ==> line[..|status|] == status)
      && (|status| > screencols ==> line == status[..screencols])
      && (|status| + |rstatus| <= screencols ==> line[screencols - |rstatus|..] == rstatus)
  {
  }

  /** `ESC [ row ; col H`, the cursor position (1-based) that ends a frame. */
  function CursorPosition(row: nat, col: nat): seq<Byte> {
    [ESC] + Bytes("[") + Decimal(row) + Bytes(";") + Decimal(col) + Bytes("H")
  }

  /** One whole frame as `editorRefreshScreen` writes it; `messageBar` is
      what `editorDrawMessageBar` appended. The cursor is put at its place
      in the window, 1-based. */
  function Frame(rows: seq<Row>, filename: Option<seq<Byte>>, cy: int, rx: int,
                 rowoff: nat, coloff: nat, screenrows: nat, screencols: nat,
                 messageBar: seq<Byte>): seq<Byte>
    requires rowoff <= cy && coloff <= rx
  {
    HIDE_CURSOR + CURSOR_HOME
    + DrawnRows(rows, rowoff, coloff, screenrows, screencols, screenrows)
    + StatusBar(StatusText(filename, |rows|), LineStatusText(cy, |rows|), screencols)
    + messageBar
    + CursorPosition(cy - rowoff + 1, rx - coloff + 1)
    + SHOW_CURSOR
  }
}
