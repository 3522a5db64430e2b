/** The data the server sends: frames, diffs and messages. */
module Protocol {
  import opened Common
  import opened Styles
  import opened Cells
  import opened AttrNumbers

  datatype ColorData = DefaultColor | IndexedColor(index: byte) | RgbColor(r: byte, g: byte, b: byte)

  /** A cell as sent: its text, colours, attribute bits and flags (bit 0 wide, bit 1
      continuation). */
  datatype CellData = CellData(grapheme: string, fg: ColorData, bg: ColorData, attrs: u16, flags: byte)

  datatype DiffEntry =
    | CellChange(col: u16, row: u16, cell: CellData)
    | LineChange(row: u16, cells: seq<CellData>)
    | RegionScroll(top: u16, bottom: u16, count: i16)

  datatype CursorShape = Block | Underline | Bar

  datatype ServerMessage =
    | HandshakeResponse(protocolVersion: u16, serverName: string)
    | FullFrame(paneId: u32, cols: u16, rows: u16, cells: seq<CellData>)
    | FrameDiff(paneId: u32, diffs: seq<DiffEntry>)
    | CursorUpdate(paneId: u32, col: u16, row: u16, visible: bool, shape: CursorShape)
    | LayoutChange
    | StatusUpdate(content: string)
    | Bell(paneId: u32)
    | TitleChange(paneId: u32, title: string)

  datatype ClientMessage =
    | HandshakeRequest(protocolVersion: u16, cols: u16, rows: u16)
    | KeyEvent(key: seq<byte>, modifiers: byte)
    | MouseEvent(button: byte, col: u16, row: u16, modifiers: byte)
    | Resize(cols: u16, rows: u16)
    | Command(name: string)
    | PasteEvent(data: string)

  function ColorToData(c: Color): ColorData {
    match c
    case Default => DefaultColor
    case Named(i) => IndexedColor(i)
    case Indexed(i) => IndexedColor(i)
    case Rgb(r, g, b) => RgbColor(r, g, b)
  }

  function CellToData(c: Cell): CellData {
    CellData(c.grapheme, ColorToData(c.style.fg), ColorToData(c.style.bg), NumberOf(c.style.attrs),
             (if c.wide then 1 else 0) + (if c.continuation then 2 else 0))
  }

  /** Bit 1 of the flags. */
  predicate IsContinuationData(c: CellData) {
    c.flags / 2 % 2 == 1
  }

  /** The index of a row's first cell among cells in row-major order. */
  function RowStart(r: nat, cols: nat): nat {
    r * cols
  }

  lemma NextRowStart(r: nat, cols: nat)
    ensures RowStart(r + 1, cols) == RowStart(r, cols) + cols
  {
  }

  lemma {:induction false} RowInside(r: nat, rows: nat, cols: nat)
    requires r < rows
    ensures RowStart(r, cols) + cols <= RowStart(rows, cols)
    decreases rows
  {
    hide RowStart;
    NextRowStart(rows - 1, cols);
    if r < rows - 1 {
      RowInside(r, rows - 1, cols);
    }
  }

  /** A snapshot of a screen, cells in row-major order. */
  datatype Frame = Frame(cols: u16, rows: u16, cells: seq<CellData>) {
    predicate Valid() {
      |cells| == RowStart(rows, cols)
    }

    function Row(r: nat): (row: seq<CellData>)
      requires Valid() && r < rows
      ensures |row| == cols
    {
      RowInside(r, rows, cols);
      cells[RowStart(r, cols)..RowStart(r, cols) + cols as int]
    }
  }

  /** Frames with the same rows are the same. */
  lemma {:induction false} RowsDetermineCells(a: seq<CellData>, b: seq<CellData>, rows: nat, cols: nat)
    requires |a| == RowStart(rows, cols) == |b|
    requires forall r :: 0 <= r < rows ==> SliceEqual(a, b, RowStart(r, cols), cols)
    ensures a == b
  {
    if rows > 0 {
      var n := RowStart(rows - 1, cols);
      assert n + cols == RowStart(rows, cols);
      hide RowStart;
      forall r | 0 <= r < rows - 1 ensures SliceEqual(a[..n], b[..n], RowStart(r, cols), cols) {
        RowInside(r, rows - 1, cols);
        var s := RowStart(r, cols);
        assert SliceEqual(a, b, s, cols);
        assert a[..n][s..s + cols] == a[s..s + cols];
        assert b[..n][s..s + cols] == b[s..s + cols];
      }
      RowsDetermineCells(a[..n], b[..n], rows - 1, cols);
      assert SliceEqual(a, b, n, cols);
      assert a == a[..n] + a[n..n + cols] && b == b[..n] + b[n..n + cols];
    }
  }

  predicate SliceEqual(a: seq<CellData>, b: seq<CellData>, start: int, len: nat) {
    0 <= start && start + len <= |a| && start + len <= |b| && a[start..start + len] == b[start..start + len]
  }

  lemma SameRowsSameFrame(a: Frame, b: Frame)
    requires a.Valid() && b.Valid() && a.cols == b.cols && a.rows == b.rows
    requires forall r :: 0 <= r < a.rows as int ==> a.Row(r) == b.Row(r)
    ensures a == b
  {
    hide RowStart;
    forall r | 0 <= r < a.rows as int ensures SliceEqual(a.cells, b.cells, RowStart(r, a.cols), a.cols) {
      RowInside(r, a.rows, a.cols);
      assert a.Row(r) == b.Row(r);
    }
    RowsDetermineCells(a.cells, b.cells, a.rows, a.cols);
  }
}
