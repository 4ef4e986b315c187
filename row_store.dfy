/** The row operations: a line's bytes, the bytes shown for it with tabs
    expanded to stops every `TAB_STOP` columns (`editorUpdateRow`), the
    mapping of a byte index to a screen column (`editorRowCxToRx`), and the
    removal of line terminators when a file is loaded (`editorOpen`). */
module RowStore {
  import opened Ascii

  /** `SEX_TAB_STOP`. */
  const TAB_STOP: nat := 8

  /** `erow`: `chars` holds the line (`size` is its length) and `render`
      what is drawn for it (`rsize` is its length). */
  datatype Row = Row(chars: seq<Byte>, render: seq<Byte>)

  /** How many spaces a tab becomes when it starts at render column `col`. */
  function TabAdvance(col: nat): (w: nat)
    ensures 1 <= w <= TAB_STOP
    ensures (col + w) % TAB_STOP == 0
  {
    TAB_STOP - col % TAB_STOP
  }

  /** The bytes shown for a line: every tab becomes the spaces up to the
      next tab stop, every other byte is kept. */
  function Render(chars: seq<Byte>): seq<Byte>
    decreases |chars|
  {
    if chars == [] then []
    else
      var before := Render(chars[..|chars| - 1]);
      if chars[|chars| - 1] == TAB then before + Spaces(TabAdvance(|before|))
      else before + [chars[|chars| - 1]]
  }

  /** The row as `editorAppendRow` stores it: its render derived at once. */
  function NewRow(chars: seq<Byte>): Row {
    Row(chars, Render(chars))
  }

  /** The render column of byte index `cx`, by the arithmetic that
      `editorRowCxToRx` accumulates. */
  function RenderColumn(chars: seq<Byte>, cx: nat): nat
    requires cx <= |chars|
  {
    if cx == 0 then 0
    else
      var rx := RenderColumn(chars, cx - 1);
      if chars[cx - 1] == TAB then rx + (TAB_STOP - 1) - rx % TAB_STOP + 1 else rx + 1
  }

  function CountTabs(s: seq<Byte>): nat {
    if s == [] then 0 else CountTabs(s[..|s| - 1]) + (if s[|s| - 1] == TAB then 1 else 0)
  }

  /** The column mapping agrees with the expansion: the render of the first
      `cx` bytes is `RenderColumn(chars, cx)` long. */
  lemma {:induction false} RenderLength(chars: seq<Byte>, cx: nat)
    requires cx <= |chars|
    ensures |Render(chars[..cx])| == RenderColumn(chars, cx)
  {
    if cx > 0 {
      assert chars[..cx][..cx - 1] == chars[..cx - 1];
      RenderLength(chars, cx - 1);
    }
  }

  /** `RenderColumn(row, size) == rsize`. */
  lemma RenderColumnAtEnd(chars: seq<Byte>)
    ensures RenderColumn(chars, |chars|) == |Render(chars)|
  {
    RenderLength(chars, |chars|);
    assert chars[..|chars|] == chars;
  }

  /** Rendering a longer prefix only appends to the render of a shorter one. */
  lemma {:induction false} RenderExtends(chars: seq<Byte>, j: nat, k: nat)
    requires j <= k <= |chars|
    ensures Render(chars[..j]) <= Render(chars[..k])
    decreases k
  {
    if j < k {
      assert chars[..k][..k - 1] == chars[..k - 1];
      RenderExtends(chars, j, k - 1);
    }
  }

  /** What byte `j` of a line becomes in the render: a tab fills the columns
      from `RenderColumn(chars, j)` up to the next multiple of `TAB_STOP`
      with 1 to `TAB_STOP` spaces; any other byte is copied to its column. */
  lemma RenderSegment(chars: seq<Byte>, j: nat)
    requires j < |chars|
    ensures var lo, hi := RenderColumn(chars, j), RenderColumn(chars, j + 1);
      && hi <= |Render(chars)|
      && (chars[j] == TAB ==>
            && 1 <= hi - lo <= TAB_STOP
            && hi % TAB_STOP == 0
            && forall k :: lo <= k < hi ==> Render(chars)[k] == SPACE)
      && (chars[j] != TAB ==> hi == lo + 1 && Render(chars)[lo] == chars[j])
  {
    RenderLength(chars, j);
    RenderLength(chars, j + 1);
    RenderExtends(chars, j + 1, |chars|);
    assert chars[..|chars|] == chars;
    assert chars[..j + 1][..j] == chars[..j];
  }

  /** The render never holds a tab. */
  lemma {:induction false} RenderHasNoTabs(chars: seq<Byte>)
    ensures forall k :: 0 <= k < |Render(chars)| ==> Render(chars)[k] != TAB
    decreases |chars|
  {
    if chars != [] {
      RenderHasNoTabs(chars[..|chars| - 1]);
    }
  }

  /** A line without tabs is shown as it is. */
  lemma {:induction false} RenderWithoutTabs(chars: seq<Byte>)
    requires forall k :: 0 <= k < |chars| ==> chars[k] != TAB
    ensures Render(chars) == chars
    decreases |chars|
  {
    if chars != [] {
      RenderWithoutTabs(chars[..|chars| - 1]);
      assert chars == chars[..|chars| - 1] + [chars[|chars| - 1]];
    }
  }

  /** The render is at least as long as the line and at most `TAB_STOP - 1`
      bytes longer per tab: the size `editorUpdateRow` allocates. */
  lemma {:induction false} RenderSize(chars: seq<Byte>)
    ensures |chars| <= |Render(chars)| <= |chars| + (TAB_STOP - 1) * CountTabs(chars)
    decreases |chars|
  {
    if chars != [] {
      RenderSize(chars[..|chars| - 1]);
    }
  }

  lemma {:induction false} CountTabsPrefix(chars: seq<Byte>, j: nat, k: nat)
    requires j <= k <= |chars|
    ensures CountTabs(chars[..j]) <= CountTabs(chars[..k])
    decreases k
  {
    if j < k {
      assert chars[..k][..k - 1] == chars[..k - 1];
      CountTabsPrefix(chars, j, k - 1);
    }
  }

  /** Every byte advances the render column by at least one, so the mapping
      is monotone and never below the byte index. */
  lemma {:induction false} RenderColumnGrowth(chars: seq<Byte>, i: nat, j: nat)
    requires i <= j <= |chars|
    ensures RenderColumn(chars, i) + (j - i) <= RenderColumn(chars, j)
    decreases j
  {
    if i < j {
      RenderColumnGrowth(chars, i, j - 1);
    }
  }

  /** Without a tab before `cx`, the render column is `cx`. */
  lemma {:induction false} RenderColumnWithoutTabs(chars: seq<Byte>, cx: nat)
    requires cx <= |chars|
    requires forall k :: 0 <= k < cx ==> chars[k] != TAB
    ensures RenderColumn(chars, cx) == cx
  {
    if cx > 0 {
      RenderColumnWithoutTabs(chars, cx - 1);
    }
  }

  /** A line that starts with its only tab ends at column `TAB_STOP` plus
      the length of the rest. */
  lemma {:induction false} LeadingTabColumn(chars: seq<Byte>, cx: nat)
    requires 1 <= cx <= |chars| && chars[0] == TAB
    requires forall k :: 1 <= k < |chars| ==> chars[k] != TAB
    ensures RenderColumn(chars, cx) == TAB_STOP + cx - 1
  {
    if cx > 1 {
      LeadingTabColumn(chars, cx - 1);
    }
  }

  /** The only tab stop in `(start, start + TabAdvance(start)]` is its end. */
  lemma TabStopReached(start: nat, idx: nat)
    requires start < idx <= start + TabAdvance(start)
    requires idx % TAB_STOP == 0
    ensures idx == start + TabAdvance(start)
  {
  }

  /** The first loop of `editorUpdateRow`: the number of tabs in the line. */
  method TabCount(chars: seq<Byte>) returns (tabs: int)
    ensures tabs == CountTabs(chars)
  {
    tabs := 0;
    var j := 0;
    while j < |chars|
      invariant 0 <= j <= |chars|
      invariant tabs == CountTabs(chars[..j])
    {
      assert chars[..j + 1][..j] == chars[..j];
      if chars[j] == TAB {
        tabs := tabs + 1;
      }
      j := j + 1;
    }
    assert chars[..|chars|] == chars;
  }

  /** The tab branch of the second loop of `editorUpdateRow`: spaces from
      `idx` up to the next tab stop, at least one. */
  method ExpandTab(buf: array<Byte>, idx: int) returns (next: int)
    requires 0 <= idx && idx + TabAdvance(idx) <= buf.Length
    modifies buf
    ensures next == idx + TabAdvance(idx)
    ensures buf[..next] == old(buf[..idx]) + Spaces(TabAdvance(idx))
    ensures buf[next..] == old(buf[next..])
  {
    next := idx;
    buf[next] := SPACE;
    next := next + 1;
    while next % TAB_STOP != 0
      invariant idx < next <= idx + TabAdvance(idx)
      invariant buf[..next] == old(buf[..idx]) + Spaces(next - idx)
      invariant buf[idx + TabAdvance(idx)..] == old(buf[idx + TabAdvance(idx)..])
      decreases idx + TabAdvance(idx) - next
    {
      buf[next] := SPACE;
      next := next + 1;
    }
    TabStopReached(idx, next);
  }

  /** `editorUpdateRow`: counts the tabs, allocates room for the worst case
      and fills the render byte by byte. */
  method UpdateRow(chars: seq<Byte>) returns (render: seq<Byte>)
    ensures render == Render(chars)
  {
    var tabs := TabCount(chars);
    var buf := new Byte[|chars| + tabs * (TAB_STOP - 1)];
    var idx := 0;
    var j := 0;
    while j < |chars|
      invariant 0 <= j <= |chars|
      invariant 0 <= idx <= buf.Length
      invariant buf[..idx] == Render(chars[..j])
    {
      ghost var before, after := Render(chars[..j]), Render(chars[..j + 1]);
      assert chars[..j + 1][..j] == chars[..j];
      assert |after| <= buf.Length by {
        RenderSize(chars[..j + 1]);
        CountTabsPrefix(chars, j + 1, |chars|);
        assert chars[..|chars|] == chars;
      }
      if chars[j] == TAB {
        assert after == before + Spaces(TabAdvance(idx));
        idx := ExpandTab(buf, idx);
      } else {
        assert after == before + [chars[j]];
        buf[idx] := chars[j];
        idx := idx + 1;
      }
      j := j + 1;
    }
    assert chars[..j] == chars;
    render := buf[..idx];
  }

  /** `editorRowCxToRx`. */
  method RowCxToRx(row: Row, cx: int) returns (rx: int)
    requires 0 <= cx <= |row.chars|
    ensures rx == RenderColumn(row.chars, cx)
    ensures rx == |Render(row.chars[..cx])|
    ensures cx <= rx
  {
    rx := 0;
    var j := 0;
    while j < cx
      invariant 0 <= j <= cx
      invariant rx == RenderColumn(row.chars, j)
    {
      if row.chars[j] == TAB {
        rx := rx + (TAB_STOP - 1) - rx % TAB_STOP;
      }
      rx := rx + 1;
      j := j + 1;
    }
    RenderLength(row.chars, cx);
    RenderColumnGrowth(row.chars, 0, cx);
  }

  predicate IsLineEnd(b: Byte) {
    b == LF || b == CR
  }

  /** A line as `getline` returned it, without its trailing LF and CR bytes:
      the longest prefix that does not end in one, everything cut off being
      LF or CR. */
  function TrimLineEnd(line: seq<Byte>): (r: seq<Byte>)
    ensures |r| <= |line| && r == line[..|r|]
    ensures r == [] || !IsLineEnd(r[|r| - 1])
    ensures forall k :: |r| <= k < |line| ==> IsLineEnd(line[k])
    decreases |line|
  {
    if line != [] && IsLineEnd(line[|line| - 1]) then TrimLineEnd(line[..|line| - 1])
    else line
  }

  /** Trimming twice trims nothing more. */
  lemma TrimLineEndIdempotent(line: seq<Byte>)
    ensures TrimLineEnd(TrimLineEnd(line)) == TrimLineEnd(line)
  {
  }

  /** The loop in `editorOpen` that shortens `linelen` while the line ends
      in LF or CR. */
  method TrimmedLength(line: seq<Byte>) returns (n: int)
    ensures 0 <= n <= |line|
    ensures line[..n] == TrimLineEnd(line)
  {
    n := |line|;
    assert line[..n] == line;
    while n > 0 && IsLineEnd(line[n - 1])
      invariant 0 <= n <= |line|
      invariant TrimLineEnd(line[..n]) == TrimLineEnd(line)
    {
      assert line[..n][..n - 1] == line[..n - 1];
      n := n - 1;
    }
  }

  /** The rows `editorOpen` appends for the lines of a file, in file order. */
  function LoadRows(lines: seq<seq<Byte>>): (rs: seq<Row>)
    ensures |rs| == |lines|
    ensures forall i :: 0 <= i < |lines| ==> rs[i] == NewRow(TrimLineEnd(lines[i]))
  {
    if lines == [] then []
    else LoadRows(lines[..|lines| - 1]) + [NewRow(TrimLineEnd(lines[|lines| - 1]))]
  }
}
