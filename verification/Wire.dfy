/** The bytes of the protocol: what the encoder writes and what the decoder reads. */
module Wire {
  import opened Common
  import opened Protocol
  import Utf8

  const MAX_MESSAGE_SIZE: nat := 16 * 1024 * 1024

  datatype WireError =
    | UnknownMessageType(tag: byte)
    | InvalidUtf8
    | MessageTooLarge(size: u32)
    | Truncated
    | UnexpectedEof

  // -------------------------------------------------------------------------
  // Encodings
  // -------------------------------------------------------------------------

  function U16(v: u16): seq<byte> {
    [v % 0x100, v / 0x100]
  }

  /** Little-endian. */
  function Pair(low: byte, high: byte): u16 {
    low as int + high as int * 0x100
  }

  function I16(v: i16): seq<byte> {
    U16(if v < 0 then v as int + 0x1_0000 else v)
  }

  function U32(v: u32): seq<byte> {
    U16(v % 0x1_0000) + U16(v / 0x1_0000)
  }

  /** A count that does not fit in 16 bits is sent as the largest that does. */
  function Count(n: nat): u16 {
    if n < 0x1_0000 then n else 0xFFFF
  }

  /** The length in bytes, then the bytes; both are cut off at 65535. */
  function String(s: string): seq<byte> {
    var bytes := Utf8.Encode(s);
    U16(Count(|bytes|)) + bytes[..Count(|bytes|)]
  }

  function ColorBytes(c: ColorData): seq<byte> {
    match c
    case DefaultColor => [0]
    case IndexedColor(i) => [1, i]
    case RgbColor(r, g, b) => [2, r, g, b]
  }

  function ShapeBytes(s: CursorShape): seq<byte> {
    match s
    case Block => [0]
    case Underline => [1]
    case Bar => [2]
  }

  function CellBytes(c: CellData): seq<byte> {
    String(c.grapheme) + ColorBytes(c.fg) + ColorBytes(c.bg) + U16(c.attrs) + [c.flags]
  }

  function CellsBytes(cells: seq<CellData>): seq<byte> {
    if cells == [] then [] else CellBytes(cells[0]) + CellsBytes(cells[1..])
  }

  function EntryBytes(e: DiffEntry): seq<byte> {
    match e
    case CellChange(col, row, cell) => [1] + U16(col) + U16(row) + CellBytes(cell)
    case LineChange(row, cells) => [2] + U16(row) + U16(Count(|cells|)) + CellsBytes(cells)
    case RegionScroll(top, bottom, count) => [3] + U16(top) + U16(bottom) + I16(count)
  }

  function EntriesBytes(es: seq<DiffEntry>): seq<byte> {
    if es == [] then [] else EntryBytes(es[0]) + EntriesBytes(es[1..])
  }

  function ServerBytes(m: ServerMessage): seq<byte> {
    match m
    case HandshakeResponse(version, name) => [0x01] + U16(version) + String(name)
    case FullFrame(pane, cols, rows, cells) =>
      [0x02] + U32(pane) + U16(cols) + U16(rows) + U16(Count(|cells|)) + CellsBytes(cells)
    case FrameDiff(pane, diffs) => [0x03] + U32(pane) + U16(Count(|diffs|)) + EntriesBytes(diffs)
    case CursorUpdate(pane, col, row, visible, shape) =>
      [0x04] + U32(pane) + U16(col) + U16(row) + [if visible then 1 else 0] + ShapeBytes(shape)
    case LayoutChange => [0x05]
    case StatusUpdate(content) => [0x06] + String(content)
    case Bell(pane) => [0x07] + U32(pane)
    case TitleChange(pane, title) => [0x08] + U32(pane) + String(title)
  }

  function ClientBytes(m: ClientMessage): seq<byte> {
    match m
    case HandshakeRequest(version, cols, rows) => [0x10] + U16(version) + U16(cols) + U16(rows)
    case KeyEvent(key, modifiers) => [0x11] + U16(Count(|key|)) + key + [modifiers]
    case MouseEvent(button, col, row, modifiers) => [0x12] + [button] + U16(col) + U16(row) + [modifiers]
    case Resize(cols, rows) => [0x13] + U16(cols) + U16(rows)
    case Command(name) => [0x14] + String(name)
    case PasteEvent(data) => [0x15] + String(data)
  }

  /** A payload behind its length; the length is taken modulo 2^32 before the check. */
  function Framed(payload: seq<byte>): Result<seq<byte>, WireError> {
    var len: u32 := |payload| % 0x1_0000_0000;
    if len > MAX_MESSAGE_SIZE then Err(MessageTooLarge(len)) else Ok(U32(len) + payload)
  }

  // -------------------------------------------------------------------------
  // What can be sent
  // -------------------------------------------------------------------------

  predicate StringFits(s: string) {
    |Utf8.Encode(s)| < 0x1_0000
  }

  predicate CellsFit(cells: seq<CellData>) {
    |cells| < 0x1_0000 && forall i :: 0 <= i < |cells| ==> StringFits(cells[i].grapheme)
  }

  predicate EntryFits(e: DiffEntry) {
    match e
    case CellChange(_, _, cell) => StringFits(cell.grapheme)
    case LineChange(_, cells) => CellsFit(cells)
    case RegionScroll(_, _, _) => true
  }

  predicate EntriesFit(es: seq<DiffEntry>) {
    |es| < 0x1_0000 && forall i :: 0 <= i < |es| ==> EntryFits(es[i])
  }

  /** No string of the message is longer than 65535 bytes and no list than 65535 elements. */
  predicate ServerFits(m: ServerMessage) {
    match m
    case HandshakeResponse(_, name) => StringFits(name)
    case FullFrame(_, _, _, cells) => CellsFit(cells)
    case FrameDiff(_, diffs) => EntriesFit(diffs)
    case StatusUpdate(content) => StringFits(content)
    case TitleChange(_, title) => StringFits(title)
    case _ => true
  }

  predicate ClientFits(m: ClientMessage) {
    match m
    case KeyEvent(key, _) => |key| < 0x1_0000
    case Command(name) => StringFits(name)
    case PasteEvent(data) => StringFits(data)
    case _ => true
  }

  // -------------------------------------------------------------------------
  // Readers: what the front of some bytes spells and the bytes behind it
  // -------------------------------------------------------------------------

  type Read<T> = Result<(T, seq<byte>), WireError>

  function GetU8(d: seq<byte>): Read<byte> {
    if |d| < 1 then Err(Truncated) else Ok((d[0], d[1..]))
  }

  function GetU16(d: seq<byte>): Read<u16> {
    if |d| < 2 then Err(Truncated) else Ok((Pair(d[0], d[1]), d[2..]))
  }

  function GetI16(d: seq<byte>): Read<i16> {
    if |d| < 2 then Err(Truncated) else
    var v: int := Pair(d[0], d[1]);
    Ok((if v < 0x8000 then v else v - 0x1_0000, d[2..]))
  }

  function GetU32(d: seq<byte>): Read<u32> {
    if |d| < 4 then Err(Truncated) else
    Ok((Pair(d[0], d[1]) as int + Pair(d[2], d[3]) as int * 0x1_0000, d[4..]))
  }

  function GetBytes(d: seq<byte>, n: nat): Read<seq<byte>> {
    if |d| < n then Err(Truncated) else Ok((d[..n], d[n..]))
  }

  function GetString(d: seq<byte>): Read<string> {
    var (len, d) :- GetU16(d);
    var (bytes, d) :- GetBytes(d, len);
    var s := Utf8.Decode(bytes);
    if s.None? then Err(InvalidUtf8) else Ok((s.value, d))
  }

  function GetColor(d: seq<byte>): Read<ColorData> {
    var (tag, d) :- GetU8(d);
    if tag == 0 then Ok((DefaultColor, d))
    else if tag == 1 then
      var (i, d) :- GetU8(d);
      Ok((IndexedColor(i), d))
    else if tag == 2 then
      var (r, d) :- GetU8(d);
      var (g, d) :- GetU8(d);
      var (b, d) :- GetU8(d);
      Ok((RgbColor(r, g, b), d))
    else Err(UnknownMessageType(tag))
  }

  function GetShape(d: seq<byte>): Read<CursorShape> {
    var (tag, d) :- GetU8(d);
    if tag == 0 then Ok((Block, d))
    else if tag == 1 then Ok((Underline, d))
    else if tag == 2 then Ok((Bar, d))
    else Err(UnknownMessageType(tag))
  }

  function GetCell(d: seq<byte>): Read<CellData> {
    var (grapheme, d) :- GetString(d);
    var (fg, d) :- GetColor(d);
    var (bg, d) :- GetColor(d);
    var (attrs, d) :- GetU16(d);
    var (flags, d) :- GetU8(d);
    Ok((CellData(grapheme, fg, bg, attrs, flags), d))
  }

  function GetCells(d: seq<byte>, n: nat): Read<seq<CellData>>
    decreases n
  {
    if n == 0 then Ok(([], d)) else
    var (cell, d) :- GetCell(d);
    var (cells, d) :- GetCells(d, n - 1);
    Ok(([cell] + cells, d))
  }

  function GetEntry(d: seq<byte>): Read<DiffEntry> {
    var (tag, d) :- GetU8(d);
    if tag == 1 then
      var (col, d) :- GetU16(d);
      var (row, d) :- GetU16(d);
      var (cell, d) :- GetCell(d);
      Ok((CellChange(col, row, cell), d))
    else if tag == 2 then
      var (row, d) :- GetU16(d);
      var (count, d) :- GetU16(d);
      var (cells, d) :- GetCells(d, count);
      Ok((LineChange(row, cells), d))
    else if tag == 3 then
      var (top, d) :- GetU16(d);
      var (bottom, d) :- GetU16(d);
      var (count, d) :- GetI16(d);
      Ok((RegionScroll(top, bottom, count), d))
    else Err(UnknownMessageType(tag))
  }

  function GetEntries(d: seq<byte>, n: nat): Read<seq<DiffEntry>>
    decreases n
  {
    if n == 0 then Ok(([], d)) else
    var (entry, d) :- GetEntry(d);
    var (entries, d) :- GetEntries(d, n - 1);
    Ok(([entry] + entries, d))
  }

  function GetHandshakeResponse(d: seq<byte>): Read<ServerMessage> {
    var (version, d) :- GetU16(d);
    var (name, d) :- GetString(d);
    Ok((HandshakeResponse(version, name), d))
  }

  function GetFullFrame(d: seq<byte>): Read<ServerMessage> {
    var (pane, d) :- GetU32(d);
    var (cols, d) :- GetU16(d);
    var (rows, d) :- GetU16(d);
    var (count, d) :- GetU16(d);
    var (cells, d) :- GetCells(d, count);
    Ok((FullFrame(pane, cols, rows, cells), d))
  }

  function GetFrameDiff(d: seq<byte>): Read<ServerMessage> {
    var (pane, d) :- GetU32(d);
    var (count, d) :- GetU16(d);
    var (diffs, d) :- GetEntries(d, count);
    Ok((FrameDiff(pane, diffs), d))
  }

  function GetCursorUpdate(d: seq<byte>): Read<ServerMessage> {
    var (pane, d) :- GetU32(d);
    var (col, d) :- GetU16(d);
    var (row, d) :- GetU16(d);
    var (visible, d) :- GetU8(d);
    var (shape, d) :- GetShape(d);
    Ok((CursorUpdate(pane, col, row, visible != 0, shape), d))
  }

  function GetStatusUpdate(d: seq<byte>): Read<ServerMessage> {
    var (content, d) :- GetString(d);
    Ok((StatusUpdate(content), d))
  }

  function GetBell(d: seq<byte>): Read<ServerMessage> {
    var (pane, d) :- GetU32(d);
    Ok((Bell(pane), d))
  }

  function GetTitleChange(d: seq<byte>): Read<ServerMessage> {
    var (pane, d) :- GetU32(d);
    var (title, d) :- GetString(d);
    Ok((TitleChange(pane, title), d))
  }

  function GetServer(d: seq<byte>): Read<ServerMessage> {
    var (tag, d) :- GetU8(d);
    if tag == 0x01 then GetHandshakeResponse(d)
    else if tag == 0x02 then GetFullFrame(d)
    else if tag == 0x03 then GetFrameDiff(d)
    else if tag == 0x04 then GetCursorUpdate(d)
    else if tag == 0x05 then Ok((LayoutChange, d))
    else if tag == 0x06 then GetStatusUpdate(d)
    else if tag == 0x07 then GetBell(d)
    else if tag == 0x08 then GetTitleChange(d)
    else Err(UnknownMessageType(tag))
  }

  function GetHandshakeRequest(d: seq<byte>): Read<ClientMessage> {
    var (version, d) :- GetU16(d);
    var (cols, d) :- GetU16(d);
    var (rows, d) :- GetU16(d);
    Ok((HandshakeRequest(version, cols, rows), d))
  }

  function GetKeyEvent(d: seq<byte>): Read<ClientMessage> {
    var (len, d) :- GetU16(d);
    var (key, d) :- GetBytes(d, len);
    var (modifiers, d) :- GetU8(d);
    Ok((KeyEvent(key, modifiers), d))
  }

  function GetMouseEvent(d: seq<byte>): Read<ClientMessage> {
    var (button, d) :- GetU8(d);
    var (col, d) :- GetU16(d);
    var (row, d) :- GetU16(d);
    var (modifiers, d) :- GetU8(d);
    Ok((MouseEvent(button, col, row, modifiers), d))
  }

  function GetResize(d: seq<byte>): Read<ClientMessage> {
    var (cols, d) :- GetU16(d);
    var (rows, d) :- GetU16(d);
    Ok((Resize(cols, rows), d))
  }

  function GetCommand(d: seq<byte>): Read<ClientMessage> {
    var (name, d) :- GetString(d);
    Ok((Command(name), d))
  }

  function GetPasteEvent(d: seq<byte>): Read<ClientMessage> {
    var (data, d) :- GetString(d);
    Ok((PasteEvent(data), d))
  }

  function GetClient(d: seq<byte>): Read<ClientMessage> {
    var (tag, d) :- GetU8(d);
    if tag == 0x10 then GetHandshakeRequest(d)
    else if tag == 0x11 then GetKeyEvent(d)
    else if tag == 0x12 then GetMouseEvent(d)
    else if tag == 0x13 then GetResize(d)
    else if tag == 0x14 then GetCommand(d)
    else if tag == 0x15 then GetPasteEvent(d)
    else Err(UnknownMessageType(tag))
  }
}
