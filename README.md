# A kilo-style terminal text viewer, modelled in Dafny

The viewer is `text_editor.c`, a single-file terminal text viewer of the
kilo family. It holds a file as a sequence of rows. For each row it keeps the
line's bytes (`chars`) and a derived `render` in which every tab is expanded to
the next 8-column stop. It decodes the bytes the terminal sends into logical
keys, including the escape sequences of the arrow, Home, End, Delete and Page
keys. It moves a cursor `(cx, cy)` over the rows, with line `numrows` serving as
a sentinel line past the end of the file. On every refresh it scrolls the
window so the cursor is visible, then composes one whole frame in an append
buffer: the text rows, a status bar, the message bar and the cursor-placement
escape.

The model has seven modules:

- `Ascii` — bytes, the ASCII constants, and the decimal formatting that `%d`
  performs.
- `KeyDecoder` — `editorReadKey` as a pure function over the bytes still to
  come. Running out of bytes stands for a read that timed out. It includes an
  independent table of the accepted escape sequences and the round trip from
  keys to bytes and back.
- `RowStore` — the tab expansion of `editorUpdateRow` (a method filling an
  array, proved against the function `Render`), the column mapping of
  `editorRowCxToRx`, and the line-end trimming of `editorOpen`.
- `AppendBuffer` — `struct abuf` and `abAppend` as a class whose byte sequence
  grows in place.
- `Cursor` — `editorMoveCursor` and the cursor branches of
  `editorProcessKeypress` as functions of the rows and the cursor.
- `Screen` — the scroll offsets and the frame, as functions: the screen lines,
  the welcome banner, the status bar and the escape sequences.
- `Editor` — the global `E` as the class `Editor.Config`. Its methods update
  the fields in place as the C functions do. Each is proved against the
  functions of `Cursor`, `RowStore` and `Screen`.

The model follows the code where its reads are easy to misread:

- After an ESC, `editorReadKey` reads two more bytes before it inspects
  either. So an unknown sequence such as `ESC x y` consumes three bytes, and a
  sequence cut short after `ESC x` consumes two.

## Model

| member | source | states |
|---|---|---|
| `Ascii.Decimal` | text_editor.c:430-431 | `%d` of a non-negative number writes at least one digit, only digits, and no leading zero except for 0 |
| `Ascii.DecimalValue` | text_editor.c:430-431 | the digits written for `n` read back as `n` |
| `KeyDecoder.Code` | text_editor.c:27-38 | named keys come back as 1000..1008 in enum order; a byte comes back as a signed `char`, in -128..127 |
| `KeyDecoder.CodeInjective` | text_editor.c:107-188 | distinct keys reach the caller as distinct integers, so no byte can be mistaken for a named key |
| `KeyDecoder.ReadKey` | text_editor.c:107-188 | one key per call: 1 to 4 bytes consumed, never more than are there; a non-ESC byte is returned as it is, consuming one byte; a returned byte is always the first one |
| `KeyDecoder.DecodeComplete` | text_editor.c:126-181 | each sequence in the table (`ESC [ A/B/C/D/H/F`, `ESC [ 1/2/3/5/6/7/8 ~`, `ESC O H/F`) decodes to its key whatever follows it, and exactly its bytes are consumed |
| `KeyDecoder.DecodeSound` | text_editor.c:126-184 | a named key is returned only when the consumed bytes are one of its sequences |
| `KeyDecoder.EscapeFallback` | text_editor.c:119-184 | after ESC the decoder returns ESC if and only if no prefix of the input is a recognised sequence: cut-short and unknown sequences fall back to ESC |
| `KeyDecoder.DecodeReadsOnlyConsumed` | text_editor.c:119-184 | the decoder inspects no byte it does not consume; nothing is pushed back |
| `KeyDecoder.Encode` | text_editor.c:126-181 | every named key has a byte sequence the decoder accepts for it |
| `KeyDecoder.ReadKeysEncodeAll` | text_editor.c:107-188 | decoding the bytes of a run of keys, one `editorReadKey` call after another, gives the keys back, provided a bare ESC comes last |
| `RowStore.TabAdvance` | text_editor.c:273-276 | a tab becomes 1 to 8 spaces and ends on a multiple of 8 |
| `RowStore.RenderLength` | text_editor.c:242-254 | the column mapping agrees with the expansion: the render of the first `cx` bytes is exactly `RenderColumn(chars, cx)` long |
| `RowStore.RenderColumnAtEnd` | text_editor.c:242-281 | `editorRowCxToRx(row, size) == rsize` |
| `RowStore.RenderExtends` | text_editor.c:268-279 | rendering more of the line only appends to the render of less of it |
| `RowStore.RenderSegment` | text_editor.c:268-279 | a tab at byte `j` fills render columns from `RenderColumn(j)` up to the next multiple of 8 with 1 to 8 spaces; any other byte is copied to column `RenderColumn(j)`, so non-tab bytes keep their order |
| `RowStore.RenderHasNoTabs` | text_editor.c:268-279 | the render holds no tab |
| `RowStore.RenderWithoutTabs` | text_editor.c:268-279 | a line without tabs is rendered as it is |
| `RowStore.RenderSize` | text_editor.c:258-265 | `size <= rsize <= size + 7 * tabs`: the allocation is large enough |
| `RowStore.RenderColumnGrowth` | text_editor.c:242-254 | the column mapping is monotone and gains at least one column per byte, so `rx >= cx` |
| `RowStore.RenderColumnWithoutTabs` | text_editor.c:242-254 | `rx == cx` when no tab precedes `cx` |
| `RowStore.LeadingTabColumn` | text_editor.c:242-254 | a line whose only tab is its first byte maps byte `cx` to column `7 + cx` |
| `RowStore.TabCount` | text_editor.c:258-262 | the first loop counts exactly the line's tabs |
| `RowStore.ExpandTab` | text_editor.c:273-276 | writes spaces from `idx` to the next tab stop and returns it; bytes before `idx` and after the stop are untouched |
| `RowStore.UpdateRow` | text_editor.c:256-282 | the filled render is `Render(chars)`, within the allocated size |
| `RowStore.RowCxToRx` | text_editor.c:242-254 | the accumulated `rx` is the length of the render of `chars[..cx]`, and `rx >= cx` |
| `RowStore.TrimLineEnd` | text_editor.c:317-318 | the trimmed line is a prefix of the line that does not end in LF or CR, and everything cut off is LF or CR |
| `RowStore.TrimLineEndIdempotent` | text_editor.c:317-318 | trimming a trimmed line changes nothing |
| `RowStore.TrimmedLength` | text_editor.c:317-318 | the shortening loop stops exactly at the length of the trimmed line |
| `RowStore.LoadRows` | text_editor.c:314-320 | one row per line, in file order, each the trimmed line with its render derived |
| `AppendBuffer.Buffer.constructor` | text_editor.c:333-336 | `ABUF_INIT` is the empty buffer |
| `AppendBuffer.Buffer.Append` | text_editor.c:339-352 | the buffer grows by exactly the appended bytes and keeps what it held |
| `Cursor.Move` | text_editor.c:497-535 | after any key the cursor is on a line of the file or the sentinel line, and at most at the end of that line |
| `Cursor.MoveAtTop` | text_editor.c:503-524 | Up on the first line, and Left at the start of the file, change nothing |
| `Cursor.MoveWraps` | text_editor.c:503-520 | Right at the end of a line goes to the start of the next line; Left at the start of a line goes to the end of the previous one |
| `Cursor.RightUndoesLeft` | text_editor.c:503-520 | Right undoes Left everywhere except at the start of the file |
| `Cursor.MoveOtherKey` | text_editor.c:497-535 | a key that is not an arrow leaves an in-bounds cursor where it is |
| `Cursor.Repeat` | text_editor.c:571-573 | repeated steps stay on some line, and in bounds after at least one step |
| `Cursor.RepeatUp` | text_editor.c:521-524 | `n` steps up end on line `cy - n` or on the first line, and the column never grows |
| `Cursor.RepeatDown` | text_editor.c:525-528 | `n` steps down end on line `cy + n` or on the sentinel line, and the column never grows |
| `Cursor.PageBottom` | text_editor.c:564-569 | PageDown first puts the cursor between the top of the window and the sentinel line |
| `Cursor.Keypress` | text_editor.c:537-584 | after any key the cursor is in bounds |
| `Cursor.HomeEnd` | text_editor.c:550-557 | Home goes to the start of the line; End goes to its end, or stays on the sentinel line |
| `Cursor.PageMoves` | text_editor.c:559-575 | PageUp lands a screen above the window's top line, PageDown a screen below its bottom line, each stopped at the ends of the file, and neither grows the column |
| `Screen.Snap` | text_editor.c:368-376 | afterwards the window `[off, off + dim)` contains the cursor coordinate; the offset is unchanged when it already did |
| `Screen.SnapIdempotent` | text_editor.c:363-377 | scrolling a second time changes nothing |
| `Screen.SnapMovesLeast` | text_editor.c:368-376 | of all windows that contain the cursor, the new one is the nearest to the old one |
| `Screen.SnapNonNegative` | text_editor.c:368-376 | the offsets never become negative |
| `Screen.WelcomeCentred` | text_editor.c:387-404 | the banner line is at most `screencols` wide, ends with the banner cut to the screen width, has a left margin of half the free width (rounded down) and starts with `~` when it has a margin |
| `Screen.VisibleWindow` | text_editor.c:410-418 | a file row shows `render[coloff ..]`, `clamp(rsize - coloff, 0, screencols)` bytes of it |
| `Screen.ScreenLineFits` | text_editor.c:381-418 | every screen line fits the screen width |
| `Screen.ScreenLines` | text_editor.c:381-423 | `n` screen lines, each the text of its line, then clear-to-end-of-line and CR LF |
| `Screen.DrawnRowsLines` | text_editor.c:379-424 | the drawn rows are exactly `screenrows` lines, each ending in `ESC [ K` CR LF |
| `Screen.StatusLineWidth` | text_editor.c:433-448 | between the colour switches the status bar is exactly `screencols` wide; it starts with as much of the left part as fits, and ends with the right part whenever both fit |
| `Editor.Config.constructor` | text_editor.c:588-604 | an empty editor with the cursor at the top left and two lines of the window kept for the bars |
| `Editor.Config.AppendRow` | text_editor.c:284-299 | one more row at the end with its render derived; earlier rows unchanged |
| `Editor.Config.Open` | text_editor.c:303-323 | the file name is recorded and the trimmed lines are appended as rows in file order |
| `Editor.Config.Scroll` | text_editor.c:363-377 | `rx` is the render column of the cursor (0 on the sentinel line), and afterwards the window contains the cursor |
| `Editor.Config.DrawRows` | text_editor.c:379-424 | appends exactly the `screenrows` screen lines |
| `Editor.Config.DrawRow` | text_editor.c:384-418 | appends the text of screen line `y`: the visible part of file row `y + rowoff`; past the end of the file `~`, except the centred banner on line `screenrows / 3` of an empty file |
| `Editor.Config.DrawWelcome` | text_editor.c:387-404 | appends the centred banner line |
| `Editor.Config.DrawStatusBar` | text_editor.c:426-451 | appends the status bar: inverted colours, the left and right parts, colours reset, CR LF |
| `Editor.Config.DrawStatusLine` | text_editor.c:433-448 | appends the left part cut to the width, then padding, and the right part flush right when it fits |
| `Editor.Config.RefreshScreen` | text_editor.c:472-493 | scrolls, then returns the whole frame; the cursor escape's coordinates lie in `[1, screenrows] x [1, screencols]` |
| `Editor.Config.DrawFrame` | text_editor.c:476-489 | the frame is hide cursor, home, the rows, the status bar, the message bar, the cursor placement and show cursor, in this order |
| `Editor.Config.MoveCursor` | text_editor.c:497-535 | the cursor moves as `Cursor.Move` says |
| `Editor.Config.ProcessKeypress` | text_editor.c:537-584 | one key is read, the rest of the input is left for the next call, the quit key is reported, and the cursor moves as `Cursor.Keypress` says |
| `Editor.Config.MoveForKey` | text_editor.c:550-582 | the cursor branches of the key switch |
| `Editor.Config.PageMove` | text_editor.c:559-575 | the PageUp/PageDown branch |
| `Editor.Config.MoveTimes` | text_editor.c:571-573 | `times` cursor steps in the same direction |

## Left out

- Raw mode and its teardown (`enableRawMode`, `disableRawMode`, `atexit`) are OS terminal settings and are not modelled.
- `die` and `exit` are not modelled. The quit key is reported by `ProcessKeypress` instead of clearing the screen and exiting.
- `read` and `write` are not modelled. The input is a byte sequence, and a read past its end is a read that timed out. The busy-wait for the first byte becomes the precondition that one exists. The frame is returned instead of written.
- `getWindowSize` and `getCursorPosition` are not modelled, because they are ioctl and a terminal round trip. The window size is a constructor parameter.
- Terminals with fewer than 3 rows or with no column are not modelled: the constructor requires at least 3 rows and 1 column. The ioctl path of `getWindowSize` rejects a width of 0, but its fallback takes whatever size the terminal replies. With `screenrows` 0, `editorScroll` puts `rowoff` past `cy`, and PageUp can then move `cy` beyond the sentinel line.
- `editorSetStatusMessage` and `editorDrawMessageBar` are not modelled, because they depend on the wall clock. `RefreshScreen` takes the bytes the message bar appends as a parameter.
- `snprintf`'s truncation at 80 bytes is not modelled. It is never reached for 32-bit counts: the status parts are at most 39 and 23 bytes. Counts are unbounded integers here.
- The 32-bit `int` width of the cursor, offsets and counts is not modelled. Files large enough to overflow them are outside the model.
- `malloc`, `realloc`, `free`, `abFree`, and `abAppend`'s no-op when `realloc` fails are not modelled: memory is unbounded here.
- `main` is not modelled. Its loop is a refresh followed by a key press.
- The file I/O of `editorOpen` (`fopen`, `getline`) and the failure of `fopen` are not modelled. `Open` takes the file's lines as `getline` returns them.
