/** The decoder inverts the encoder, and accepts little else than its output. */
module WireProperties {
  import opened Common
  import opened Protocol
  import opened Wire
  import Utf8

  // -------------------------------------------------------------------------
  // Regrouping
  // -------------------------------------------------------------------------

  lemma Regroup2(a: seq<byte>, b: seq<byte>, r: seq<byte>)
    ensures a + b + r == a + (b + r)
  {
  }

  lemma Regroup3(a: seq<byte>, b: seq<byte>, c: seq<byte>, r: seq<byte>)
    ensures a + b + c + r == a + (b + (c + r))
  {
    hide *;
    Regroup2(a + b, c, r);
    Regroup2(a, b, c + r);
  }

  lemma Regroup4(a: seq<byte>, b: seq<byte>, c: seq<byte>, d: seq<byte>, r: seq<byte>)
    ensures a + b + c + d + r == a + (b + (c + (d + r)))
  {
    hide *;
    Regroup2(a + b + c, d, r);
    Regroup3(a, b, c, d + r);
  }

  lemma Regroup5(a: seq<byte>, b: seq<byte>, c: seq<byte>, d: seq<byte>, e: seq<byte>, r: seq<byte>)
    ensures a + b + c + d + e + r == a + (b + (c + (d + (e + r))))
  {
    hide *;
    Regroup2(a + b + c + d, e, r);
    Regroup4(a, b, c, d, e + r);
  }

  lemma Regroup6(a: seq<byte>, b: seq<byte>, c: seq<byte>, d: seq<byte>, e: seq<byte>, f: seq<byte>, r: seq<byte>)
    ensures a + b + c + d + e + f + r == a + (b + (c + (d + (e + (f + r)))))
  {
    hide *;
    Regroup2(a + b + c + d + e, f, r);
    Regroup5(a, b, c, d, e, f + r);
  }

  // -------------------------------------------------------------------------
  // Primitives: reading succeeds with a value exactly on its encoding
  // -------------------------------------------------------------------------

  lemma U8Inverse(d: seq<byte>, v: byte, r: seq<byte>)
    ensures GetU8(d) == Ok((v, r)) <==> d == [v] + r
  {
    if GetU8(d) == Ok((v, r)) { assert d == [d[0]] + d[1..]; }
  }

  lemma PairInverse(low: byte, high: byte, v: u16)
    ensures Pair(low, high) == v <==> U16(v) == [low, high]
  {
  }

  lemma U16Inverse(d: seq<byte>, v: u16, r: seq<byte>)
    ensures GetU16(d) == Ok((v, r)) <==> d == U16(v) + r
  {
    hide Pair, U16;
    if |d| >= 2 {
      assert d == [d[0], d[1]] + d[2..];
      PairInverse(d[0], d[1], v);
      TwoBytes(v);
      if d == U16(v) + r { assert U16(v) == d[..2] && r == d[2..]; }
    } else {
      TwoBytes(v);
    }
  }

  lemma TwoBytes(v: u16)
    ensures |U16(v)| == 2
  {
  }

  lemma I16Inverse(d: seq<byte>, v: i16, r: seq<byte>)
    ensures GetI16(d) == Ok((v, r)) <==> d == I16(v) + r
  {
    hide Pair, U16;
    var u: u16 := if v < 0 then v as int + 0x1_0000 else v;
    U16Inverse(d, u, r);
  }

  lemma U32Inverse(d: seq<byte>, v: u32, r: seq<byte>)
    ensures GetU32(d) == Ok((v, r)) <==> d == U32(v) + r
  {
    hide Pair, U16;
    var low: u16, high: u16 := v % 0x1_0000, v / 0x1_0000;
    TwoBytes(low);
    TwoBytes(high);
    if |d| >= 4 {
      assert d == [d[0], d[1]] + [d[2], d[3]] + d[4..];
      PairInverse(d[0], d[1], low);
      PairInverse(d[2], d[3], high);
      if d == U32(v) + r {
        assert U16(low) == d[..2] == [d[0], d[1]];
        assert U16(high) == d[2..4] == [d[2], d[3]];
      }
    }
  }

  lemma BytesInverse(d: seq<byte>, n: nat, bytes: seq<byte>, r: seq<byte>)
    ensures GetBytes(d, n) == Ok((bytes, r)) <==> |bytes| == n && d == bytes + r
  {
    if GetBytes(d, n) == Ok((bytes, r)) { assert d == d[..n] + d[n..]; }
  }

  lemma StringReads(s: string, r: seq<byte>)
    requires StringFits(s)
    ensures GetString(String(s) + r) == Ok((s, r))
  {
    hide GetU16, GetBytes, U16, Utf8.Encode, Utf8.Decode;
    var bytes := Utf8.Encode(s);
    assert bytes[..|bytes|] == bytes;
    var d := String(s) + r;
    Regroup2(U16(|bytes|), bytes, r);
    U16Inverse(d, |bytes|, bytes + r);
    BytesInverse(bytes + r, |bytes|, bytes, r);
    Utf8.DecodesExactlyItsEncoding(bytes, s);
  }

  lemma StringWritten(d: seq<byte>, s: string, r: seq<byte>)
    requires GetString(d) == Ok((s, r))
    ensures StringFits(s) && d == String(s) + r
  {
    hide GetU16, GetBytes, U16, Utf8.Encode, Utf8.Decode;
    var (len, d1) := GetU16(d).value;
    var (bytes, d2) := GetBytes(d1, len).value;
    U16Inverse(d, len, d1);
    BytesInverse(d1, len, bytes, d2);
    Utf8.DecodesExactlyItsEncoding(bytes, s);
    assert bytes[..|bytes|] == bytes;
    Regroup2(U16(len), bytes, r);
  }

  lemma ColorReads(c: ColorData, r: seq<byte>)
    ensures GetColor(ColorBytes(c) + r) == Ok((c, r))
  {
    var d := ColorBytes(c) + r;
    match c {
      case DefaultColor => assert d[1..] == r;
      case IndexedColor(i) => assert d[1..] == [i] + r;
      case RgbColor(x, y, z) => assert d[1..] == [x, y, z] + r && d[2..] == [y, z] + r && d[3..] == [z] + r;
    }
  }

  lemma ColorWritten(d: seq<byte>, c: ColorData, r: seq<byte>)
    requires GetColor(d) == Ok((c, r))
    ensures d == ColorBytes(c) + r
  {
  }

  lemma ShapeReads(s: CursorShape, r: seq<byte>)
    ensures GetShape(ShapeBytes(s) + r) == Ok((s, r))
  {
    var d := ShapeBytes(s) + r;
    assert d[1..] == r;
  }

  lemma ShapeWritten(d: seq<byte>, s: CursorShape, r: seq<byte>)
    requires GetShape(d) == Ok((s, r))
    ensures d == ShapeBytes(s) + r
  {
  }

  // -------------------------------------------------------------------------
  // Cells and diff entries
  // -------------------------------------------------------------------------

  lemma CellReads(c: CellData, r: seq<byte>)
    requires StringFits(c.grapheme)
    ensures GetCell(CellBytes(c) + r) == Ok((c, r))
  {
    hide StringFits, String, GetString, ColorBytes, GetColor, U16, GetU16, GetU8;
    var g, fg, bg, n, f := String(c.grapheme), ColorBytes(c.fg), ColorBytes(c.bg), c.attrs, [c.flags];
    Regroup5(g, fg, bg, U16(n), f, r);
    StringReads(c.grapheme, fg + (bg + (U16(n) + (f + r))));
    ColorReads(c.fg, bg + (U16(n) + (f + r)));
    ColorReads(c.bg, U16(n) + (f + r));
    U16Inverse(U16(n) + (f + r), n, f + r);
    U8Inverse(f + r, c.flags, r);
  }

  lemma CellWritten(d: seq<byte>, c: CellData, r: seq<byte>)
    requires GetCell(d) == Ok((c, r))
    ensures StringFits(c.grapheme) && d == CellBytes(c) + r
  {
    hide StringFits, String, GetString, ColorBytes, GetColor, U16, GetU16, GetU8;
    var (g, d1) := GetString(d).value;
    var (fg, d2) := GetColor(d1).value;
    var (bg, d3) := GetColor(d2).value;
    var (n, d4) := GetU16(d3).value;
    var (f, d5) := GetU8(d4).value;
    StringWritten(d, g, d1);
    ColorWritten(d1, fg, d2);
    ColorWritten(d2, bg, d3);
    U16Inverse(d3, n, d4);
    U8Inverse(d4, f, d5);
    Regroup5(String(g), ColorBytes(fg), ColorBytes(bg), U16(n), [f], r);
  }

  lemma {:induction false} CellsRead(cells: seq<CellData>, r: seq<byte>)
    requires forall i :: 0 <= i < |cells| ==> StringFits(cells[i].grapheme)
    ensures GetCells(CellsBytes(cells) + r, |cells|) == Ok((cells, r))
  {
    hide CellBytes, GetCell, StringFits;
    if cells == [] {
      assert CellsBytes(cells) + r == r;
    } else {
      Regroup2(CellBytes(cells[0]), CellsBytes(cells[1..]), r);
      CellReads(cells[0], CellsBytes(cells[1..]) + r);
      CellsRead(cells[1..], r);
      assert cells == [cells[0]] + cells[1..];
    }
  }

  lemma {:induction false} CellsWritten(d: seq<byte>, n: nat, cells: seq<CellData>, r: seq<byte>)
    requires GetCells(d, n) == Ok((cells, r))
    ensures |cells| == n && (forall i :: 0 <= i < n ==> StringFits(cells[i].grapheme)) && d == CellsBytes(cells) + r
    decreases n
  {
    hide CellBytes, GetCell, StringFits;
    if n == 0 {
      assert CellsBytes(cells) + r == r;
    } else {
      var (cell, d1) := GetCell(d).value;
      CellWritten(d, cell, d1);
      CellsWritten(d1, n - 1, cells[1..], r);
      Regroup2(CellBytes(cells[0]), CellsBytes(cells[1..]), r);
    }
  }

  lemma EntryReads(e: DiffEntry, r: seq<byte>)
    requires EntryFits(e)
    ensures GetEntry(EntryBytes(e) + r) == Ok((e, r))
  {
    hide StringFits, CellBytes, GetCell, CellsBytes, GetCells, U16, GetU16, I16, GetI16, GetU8;
    match e {
      case CellChange(col, row, cell) =>
        Regroup4([1], U16(col), U16(row), CellBytes(cell), r);
        U8Inverse(EntryBytes(e) + r, 1, U16(col) + (U16(row) + (CellBytes(cell) + r)));
        U16Inverse(U16(col) + (U16(row) + (CellBytes(cell) + r)), col, U16(row) + (CellBytes(cell) + r));
        U16Inverse(U16(row) + (CellBytes(cell) + r), row, CellBytes(cell) + r);
        CellReads(cell, r);
      case LineChange(row, cells) =>
        var n := Count(|cells|);
        Regroup4([2], U16(row), U16(n), CellsBytes(cells), r);
        U8Inverse(EntryBytes(e) + r, 2, U16(row) + (U16(n) + (CellsBytes(cells) + r)));
        U16Inverse(U16(row) + (U16(n) + (CellsBytes(cells) + r)), row, U16(n) + (CellsBytes(cells) + r));
        U16Inverse(U16(n) + (CellsBytes(cells) + r), n, CellsBytes(cells) + r);
        CellsRead(cells, r);
      case RegionScroll(top, bottom, count) =>
        Regroup4([3], U16(top), U16(bottom), I16(count), r);
        U8Inverse(EntryBytes(e) + r, 3, U16(top) + (U16(bottom) + (I16(count) + r)));
        U16Inverse(U16(top) + (U16(bottom) + (I16(count) + r)), top, U16(bottom) + (I16(count) + r));
        U16Inverse(U16(bottom) + (I16(count) + r), bottom, I16(count) + r);
        I16Inverse(I16(count) + r, count, r);
    }
  }

  lemma EntryWritten(d: seq<byte>, e: DiffEntry, r: seq<byte>)
    requires GetEntry(d) == Ok((e, r))
    ensures EntryFits(e) && d == EntryBytes(e) + r
  {
    hide StringFits, CellBytes, GetCell, CellsBytes, GetCells, U16, GetU16, I16, GetI16, GetU8;
    var (tag, d1) := GetU8(d).value;
    U8Inverse(d, tag, d1);
    match e {
      case CellChange(col, row, cell) =>
        var d2 := GetU16(d1).value.1;
        var d3 := GetU16(d2).value.1;
        U16Inverse(d1, col, d2);
        U16Inverse(d2, row, d3);
        var (x, last) := GetCell(d3).value;
        CellWritten(d3, x, last);
        Regroup4([1], U16(col), U16(row), CellBytes(cell), r);
      case LineChange(row, cells) =>
        var d2 := GetU16(d1).value.1;
        var (n, d3) := GetU16(d2).value;
        U16Inverse(d1, row, d2);
        U16Inverse(d2, n, d3);
        var (x, last) := GetCells(d3, n).value;
        CellsWritten(d3, n, x, last);
        Regroup4([2], U16(row), U16(n), CellsBytes(cells), r);
      case RegionScroll(top, bottom, count) =>
        var d2 := GetU16(d1).value.1;
        var d3 := GetU16(d2).value.1;
        U16Inverse(d1, top, d2);
        U16Inverse(d2, bottom, d3);
        var (x, last) := GetI16(d3).value;
        I16Inverse(d3, x, last);
        Regroup4([3], U16(top), U16(bottom), I16(count), r);
    }
  }

  lemma {:induction false} EntriesRead(es: seq<DiffEntry>, r: seq<byte>)
    requires forall i :: 0 <= i < |es| ==> EntryFits(es[i])
    ensures GetEntries(EntriesBytes(es) + r, |es|) == Ok((es, r))
  {
    hide EntryBytes, GetEntry, EntryFits;
    if es == [] {
      assert EntriesBytes(es) + r == r;
    } else {
      Regroup2(EntryBytes(es[0]), EntriesBytes(es[1..]), r);
      EntryReads(es[0], EntriesBytes(es[1..]) + r);
      EntriesRead(es[1..], r);
      assert es == [es[0]] + es[1..];
    }
  }

  lemma {:induction false} EntriesWritten(d: seq<byte>, n: nat, es: seq<DiffEntry>, r: seq<byte>)
    requires GetEntries(d, n) == Ok((es, r))
    ensures |es| == n && (forall i :: 0 <= i < n ==> EntryFits(es[i])) && d == EntriesBytes(es) + r
    decreases n
  {
    hide EntryBytes, GetEntry, EntryFits;
    if n == 0 {
      assert EntriesBytes(es) + r == r;
    } else {
      var (e, d1) := GetEntry(d).value;
      EntryWritten(d, e, d1);
      EntriesWritten(d1, n - 1, es[1..], r);
      Regroup2(EntryBytes(es[0]), EntriesBytes(es[1..]), r);
    }
  }

  // -------------------------------------------------------------------------
  // Server messages
  // -------------------------------------------------------------------------

  lemma SmallServerReads(m: ServerMessage, r: seq<byte>)
    requires ServerFits(m) && !m.FullFrame? && !m.FrameDiff? && !m.CursorUpdate?
    ensures GetServer(ServerBytes(m) + r) == Ok((m, r))
  {
    hide StringFits, String, GetString, U16, GetU16, U32, GetU32, GetU8;
    var d := ServerBytes(m) + r;
    match m {
      case HandshakeResponse(version, name) =>
        Regroup3([0x01], U16(version), String(name), r);
        U8Inverse(d, 0x01, U16(version) + (String(name) + r));
        U16Inverse(U16(version) + (String(name) + r), version, String(name) + r);
        StringReads(name, r);
      case LayoutChange =>
        U8Inverse(d, 0x05, r);
      case StatusUpdate(content) =>
        Regroup2([0x06], String(content), r);
        U8Inverse(d, 0x06, String(content) + r);
        StringReads(content, r);
      case Bell(pane) =>
        Regroup2([0x07], U32(pane), r);
        U8Inverse(d, 0x07, U32(pane) + r);
        U32Inverse(U32(pane) + r, pane, r);
      case TitleChange(pane, title) =>
        Regroup3([0x08], U32(pane), String(title), r);
        U8Inverse(d, 0x08, U32(pane) + (String(title) + r));
        U32Inverse(U32(pane) + (String(title) + r), pane, String(title) + r);
        StringReads(title, r);
    }
  }

  lemma FullFrameReads(pane: u32, cols: u16, rows: u16, cells: seq<CellData>, r: seq<byte>)
    requires CellsFit(cells)
    ensures GetServer(ServerBytes(FullFrame(pane, cols, rows, cells)) + r)
            == Ok((FullFrame(pane, cols, rows, cells), r))
  {
    hide CellsBytes, GetCells, StringFits, U16, GetU16, U32, GetU32, GetU8;
    var n := Count(|cells|);
    var d5 := CellsBytes(cells) + r;
    var d4 := U16(n) + d5;
    var d3 := U16(rows) + d4;
    var d2 := U16(cols) + d3;
    var d1 := U32(pane) + d2;
    Regroup6([0x02], U32(pane), U16(cols), U16(rows), U16(n), CellsBytes(cells), r);
    U8Inverse([0x02] + d1, 0x02, d1);
    U32Inverse(d1, pane, d2);
    U16Inverse(d2, cols, d3);
    U16Inverse(d3, rows, d4);
    U16Inverse(d4, n, d5);
    CellsRead(cells, r);
  }

  lemma FrameDiffReads(pane: u32, diffs: seq<DiffEntry>, r: seq<byte>)
    requires EntriesFit(diffs)
    ensures GetServer(ServerBytes(FrameDiff(pane, diffs)) + r) == Ok((FrameDiff(pane, diffs), r))
  {
    hide EntriesBytes, GetEntries, EntryFits, U16, GetU16, U32, GetU32, GetU8;
    var n := Count(|diffs|);
    var d3 := EntriesBytes(diffs) + r;
    var d2 := U16(n) + d3;
    var d1 := U32(pane) + d2;
    Regroup4([0x03], U32(pane), U16(n), EntriesBytes(diffs), r);
    U8Inverse([0x03] + d1, 0x03, d1);
    U32Inverse(d1, pane, d2);
    U16Inverse(d2, n, d3);
    EntriesRead(diffs, r);
  }

  function CursorBytes(pane: u32, col: u16, row: u16, visible: byte, shape: CursorShape): seq<byte> {
    [0x04] + U32(pane) + U16(col) + U16(row) + [visible] + ShapeBytes(shape)
  }

  /** Any byte but 0 reads as visible. */
  lemma CursorReads(pane: u32, col: u16, row: u16, visible: byte, shape: CursorShape, r: seq<byte>)
    ensures GetServer(CursorBytes(pane, col, row, visible, shape) + r)
            == Ok((CursorUpdate(pane, col, row, visible != 0, shape), r))
  {
    hide ShapeBytes, GetShape, U16, GetU16, U32, GetU32, GetU8;
    var d5 := ShapeBytes(shape) + r;
    var d4 := [visible] + d5;
    var d3 := U16(row) + d4;
    var d2 := U16(col) + d3;
    var d1 := U32(pane) + d2;
    Regroup6([0x04], U32(pane), U16(col), U16(row), [visible], ShapeBytes(shape), r);
    U8Inverse([0x04] + d1, 0x04, d1);
    U32Inverse(d1, pane, d2);
    U16Inverse(d2, col, d3);
    U16Inverse(d3, row, d4);
    U8Inverse(d4, visible, d5);
    ShapeReads(shape, r);
  }

  /** Every message within the limits is read back with all of its bytes and no others. */
  lemma ServerReads(m: ServerMessage, r: seq<byte>)
    requires ServerFits(m)
    ensures GetServer(ServerBytes(m) + r) == Ok((m, r))
  {
    hide GetServer, StringFits, CellsFit, EntriesFit;
    match m {
      case FullFrame(pane, cols, rows, cells) => FullFrameReads(pane, cols, rows, cells, r);
      case FrameDiff(pane, diffs) => FrameDiffReads(pane, diffs, r);
      case CursorUpdate(pane, col, row, visible, shape) =>
        CursorReads(pane, col, row, if visible then 1 else 0, shape, r);
      case _ => SmallServerReads(m, r);
    }
  }

  /** The bytes read as the message are its encoding, except that a cursor update may spell
      "visible" with any byte but 0. */
  predicate SpellsServer(d: seq<byte>, m: ServerMessage, r: seq<byte>) {
    || d == ServerBytes(m) + r
    || (m.CursorUpdate? && m.visible
        && exists v: byte :: v > 1 && d == CursorBytes(m.paneId, m.col, m.row, v, m.shape) + r)
  }

  lemma SmallServerWritten(d: seq<byte>, m: ServerMessage, r: seq<byte>)
    requires GetServer(d) == Ok((m, r)) && !m.FullFrame? && !m.FrameDiff? && !m.CursorUpdate?
    ensures ServerFits(m) && d == ServerBytes(m) + r
  {
    hide StringFits, String, GetString, U16, GetU16, U32, GetU32, GetU8, GetCells, GetEntries, GetShape;
    var (tag, d1) := GetU8(d).value;
    U8Inverse(d, tag, d1);
    match m {
      case HandshakeResponse(version, name) =>
        var d2 := GetU16(d1).value.1;
        U16Inverse(d1, version, d2);
        var (x, last) := GetString(d2).value;
        StringWritten(d2, x, last);
        Regroup3([0x01], U16(version), String(name), r);
      case LayoutChange =>
      case StatusUpdate(content) =>
        var (x, last) := GetString(d1).value;
        StringWritten(d1, x, last);
        Regroup2([0x06], String(content), r);
      case Bell(pane) =>
        var (x, last) := GetU32(d1).value;
        U32Inverse(d1, x, last);
        Regroup2([0x07], U32(pane), r);
      case TitleChange(pane, title) =>
        var d2 := GetU32(d1).value.1;
        U32Inverse(d1, pane, d2);
        var (x, last) := GetString(d2).value;
        StringWritten(d2, x, last);
        Regroup3([0x08], U32(pane), String(title), r);
    }
  }

  lemma FullFrameWritten(d: seq<byte>, m: ServerMessage, r: seq<byte>)
    requires GetServer(d) == Ok((m, r)) && m.FullFrame?
    ensures ServerFits(m) && d == ServerBytes(m) + r
  {
    hide CellsBytes, GetCells, StringFits, GetString, U16, GetU16, U32, GetU32, GetU8, GetEntries, GetShape;
    var (tag, d1) := GetU8(d).value;
    var d2 := GetU32(d1).value.1;
    var d3 := GetU16(d2).value.1;
    var d4 := GetU16(d3).value.1;
    var (n, d5) := GetU16(d4).value;
    U8Inverse(d, tag, d1);
    U32Inverse(d1, m.paneId, d2);
    U16Inverse(d2, m.cols, d3);
    U16Inverse(d3, m.rows, d4);
    U16Inverse(d4, n, d5);
    var (x, last) := GetCells(d5, n).value;
    CellsWritten(d5, n, x, last);
    Regroup6([0x02], U32(m.paneId), U16(m.cols), U16(m.rows), U16(n), CellsBytes(m.cells), r);
  }

  lemma FrameDiffWritten(d: seq<byte>, m: ServerMessage, r: seq<byte>)
    requires GetServer(d) == Ok((m, r)) && m.FrameDiff?
    ensures ServerFits(m) && d == ServerBytes(m) + r
  {
    hide EntriesBytes, GetEntries, EntryFits, GetString, GetCells, U16, GetU16, U32, GetU32, GetU8, GetShape;
    var (tag, d1) := GetU8(d).value;
    var d2 := GetU32(d1).value.1;
    var (n, d3) := GetU16(d2).value;
    U8Inverse(d, tag, d1);
    U32Inverse(d1, m.paneId, d2);
    U16Inverse(d2, n, d3);
    var (x, last) := GetEntries(d3, n).value;
    EntriesWritten(d3, n, x, last);
    Regroup4([0x03], U32(m.paneId), U16(n), EntriesBytes(m.diffs), r);
  }

  lemma CursorWritten(d: seq<byte>, m: ServerMessage, r: seq<byte>) returns (visible: byte)
    requires GetServer(d) == Ok((m, r)) && m.CursorUpdate?
    ensures (m.visible <==> visible != 0) && d == CursorBytes(m.paneId, m.col, m.row, visible, m.shape) + r
  {
    hide GetEntries, GetString, GetCells, U16, GetU16, U32, GetU32, GetU8, GetShape, ShapeBytes;
    var (tag, d1) := GetU8(d).value;
    var d2 := GetU32(d1).value.1;
    var d3 := GetU16(d2).value.1;
    var d4 := GetU16(d3).value.1;
    var (v, d5) := GetU8(d4).value;
    U8Inverse(d, tag, d1);
    U32Inverse(d1, m.paneId, d2);
    U16Inverse(d2, m.col, d3);
    U16Inverse(d3, m.row, d4);
    U8Inverse(d4, v, d5);
    var (x, last) := GetShape(d5).value;
    ShapeWritten(d5, x, last);
    Regroup6([0x04], U32(m.paneId), U16(m.col), U16(m.row), [v], ShapeBytes(m.shape), r);
    visible := v;
  }

  /** Whatever the decoder accepts is within the limits, and its bytes spell the message. */
  lemma ServerWritten(d: seq<byte>, m: ServerMessage, r: seq<byte>)
    requires GetServer(d) == Ok((m, r))
    ensures ServerFits(m) && SpellsServer(d, m, r)
  {
    hide GetServer;
    if m.FullFrame? {
      FullFrameWritten(d, m, r);
    } else if m.FrameDiff? {
      FrameDiffWritten(d, m, r);
    } else if m.CursorUpdate? {
      var v := CursorWritten(d, m, r);
      if v <= 1 { assert CursorBytes(m.paneId, m.col, m.row, v, m.shape) == ServerBytes(m); }
    } else {
      SmallServerWritten(d, m, r);
    }
  }

  /** A server message survives encoding and decoding, with every byte consumed and what
      follows untouched, exactly when its strings and lists fit their 16-bit counts. */
  lemma ServerRoundTripIff(m: ServerMessage, r: seq<byte>)
    ensures GetServer(ServerBytes(m) + r) == Ok((m, r)) <==> ServerFits(m)
  {
    hide *;
    if ServerFits(m) {
      ServerReads(m, r);
    }
    if GetServer(ServerBytes(m) + r) == Ok((m, r)) {
      ServerWritten(ServerBytes(m) + r, m, r);
    }
  }

  lemma {:induction false} AsciiEncodedLength(n: nat)
    ensures |Utf8.Encode(Repeat('a', n))| == n
  {
    if n > 0 {
      assert Repeat('a', n)[1..] == Repeat('a', n - 1);
      AsciiEncodedLength(n - 1);
    }
  }

  /** A status line of 65536 letters is cut short on the wire. */
  lemma LongStatusIsCut()
    ensures var m := StatusUpdate(Repeat('a', 0x1_0000));
            GetServer(ServerBytes(m)) != Ok((m, []))
  {
    hide GetServer, ServerBytes, Repeat, Utf8.Encode;
    var m := StatusUpdate(Repeat('a', 0x1_0000));
    AsciiEncodedLength(0x1_0000);
    ServerRoundTripIff(m, []);
    assert ServerBytes(m) + [] == ServerBytes(m);
  }

  // -------------------------------------------------------------------------
  // Client messages
  // -------------------------------------------------------------------------

  lemma ClientReads(m: ClientMessage, r: seq<byte>)
    requires ClientFits(m)
    ensures GetClient(ClientBytes(m) + r) == Ok((m, r))
  {
    hide StringFits, String, GetString, U16, GetU16, GetBytes, GetU8;
    var d := ClientBytes(m) + r;
    match m {
      case HandshakeRequest(version, cols, rows) =>
        var d3 := U16(rows) + r;
        var d2 := U16(cols) + d3;
        var d1 := U16(version) + d2;
        Regroup4([0x10], U16(version), U16(cols), U16(rows), r);
        U8Inverse([0x10] + d1, 0x10, d1);
        U16Inverse(d1, version, d2);
        U16Inverse(d2, cols, d3);
        U16Inverse(d3, rows, r);
      case KeyEvent(key, modifiers) =>
        var n := Count(|key|);
        var d3 := [modifiers] + r;
        var d2 := key + d3;
        var d1 := U16(n) + d2;
        Regroup4([0x11], U16(n), key, [modifiers], r);
        U8Inverse([0x11] + d1, 0x11, d1);
        U16Inverse(d1, n, d2);
        BytesInverse(d2, n, key, d3);
        U8Inverse(d3, modifiers, r);
      case MouseEvent(button, col, row, modifiers) =>
        var d4 := [modifiers] + r;
        var d3 := U16(row) + d4;
        var d2 := U16(col) + d3;
        var d1 := [button] + d2;
        Regroup5([0x12], [button], U16(col), U16(row), [modifiers], r);
        U8Inverse([0x12] + d1, 0x12, d1);
        U8Inverse(d1, button, d2);
        U16Inverse(d2, col, d3);
        U16Inverse(d3, row, d4);
        U8Inverse(d4, modifiers, r);
      case Resize(cols, rows) =>
        var d2 := U16(rows) + r;
        var d1 := U16(cols) + d2;
        Regroup3([0x13], U16(cols), U16(rows), r);
        U8Inverse([0x13] + d1, 0x13, d1);
        U16Inverse(d1, cols, d2);
        U16Inverse(d2, rows, r);
      case Command(name) =>
        Regroup2([0x14], String(name), r);
        U8Inverse(d, 0x14, String(name) + r);
        StringReads(name, r);
      case PasteEvent(data) =>
        Regroup2([0x15], String(data), r);
        U8Inverse(d, 0x15, String(data) + r);
        StringReads(data, r);
    }
  }

  /** The decoder of client messages accepts nothing but encodings. */
  lemma ClientWritten(d: seq<byte>, m: ClientMessage, r: seq<byte>)
    requires GetClient(d) == Ok((m, r))
    ensures ClientFits(m) && d == ClientBytes(m) + r
  {
    hide StringFits, String, GetString, U16, GetU16, GetBytes, GetU8;
    var (tag, d1) := GetU8(d).value;
    U8Inverse(d, tag, d1);
    match m {
      case HandshakeRequest(version, cols, rows) =>
        var d2 := GetU16(d1).value.1;
        var d3 := GetU16(d2).value.1;
        U16Inverse(d1, version, d2);
        U16Inverse(d2, cols, d3);
        var (x, last) := GetU16(d3).value;
        U16Inverse(d3, x, last);
        Regroup4([0x10], U16(version), U16(cols), U16(rows), r);
      case KeyEvent(key, modifiers) =>
        var (n, d2) := GetU16(d1).value;
        var d3 := GetBytes(d2, n).value.1;
        U16Inverse(d1, n, d2);
        BytesInverse(d2, n, key, d3);
        var (x, last) := GetU8(d3).value;
        U8Inverse(d3, x, last);
        Regroup4([0x11], U16(n), key, [modifiers], r);
      case MouseEvent(button, col, row, modifiers) =>
        var d2 := GetU8(d1).value.1;
        var d3 := GetU16(d2).value.1;
        var d4 := GetU16(d3).value.1;
        U8Inverse(d1, button, d2);
        U16Inverse(d2, col, d3);
        U16Inverse(d3, row, d4);
        var (x, last) := GetU8(d4).value;
        U8Inverse(d4, x, last);
        Regroup5([0x12], [button], U16(col), U16(row), [modifiers], r);
      case Resize(cols, rows) =>
        var d2 := GetU16(d1).value.1;
        U16Inverse(d1, cols, d2);
        var (x, last) := GetU16(d2).value;
        U16Inverse(d2, x, last);
        Regroup3([0x13], U16(cols), U16(rows), r);
      case Command(name) =>
        var (x, last) := GetString(d1).value;
        StringWritten(d1, x, last);
        Regroup2([0x14], String(name), r);
      case PasteEvent(data) =>
        var (x, last) := GetString(d1).value;
        StringWritten(d1, x, last);
        Regroup2([0x15], String(data), r);
    }
  }

  lemma ClientRoundTripIff(m: ClientMessage, r: seq<byte>)
    ensures GetClient(ClientBytes(m) + r) == Ok((m, r)) <==> ClientFits(m)
  {
    hide *;
    if ClientFits(m) {
      ClientReads(m, r);
    }
    if GetClient(ClientBytes(m) + r) == Ok((m, r)) {
      ClientWritten(ClientBytes(m) + r, m, r);
    }
  }
}
