/** The encoder, which appends to a byte buffer, and the decoder, a cursor over a payload. */
module WireObject {
  import opened Common
  import opened Protocol
  import opened Wire
  import Utf8

  // -------------------------------------------------------------------------
  // Encoder
  // -------------------------------------------------------------------------

  lemma Appended3(o: seq<byte>, a: seq<byte>, b: seq<byte>, c: seq<byte>)
    ensures o + a + b == o + (a + b) && o + a + b + c == o + (a + b + c)
  {
    assert o + a + b == o + (a + b);
    assert o + (a + b) + c == o + (a + b + c);
  }

  lemma Appended6(o: seq<byte>, a: seq<byte>, b: seq<byte>, c: seq<byte>, d: seq<byte>, e: seq<byte>, f: seq<byte>)
    ensures o + a + b + c + d == o + (a + b + c + d)
    ensures o + a + b + c + d + e == o + (a + b + c + d + e)
    ensures o + a + b + c + d + e + f == o + (a + b + c + d + e + f)
  {
    hide *;
    Appended3(o, a, b, c);
    var abc := a + b + c;
    Appended3(o, abc, d, e);
    Appended3(o, abc + d + e, f, []);
  }

  class ByteBuffer {
    var bytes: seq<byte>

    constructor ()
      ensures bytes == []
    {
      bytes := [];
    }

    method Push(b: byte)
      modifies this
      ensures bytes == old(bytes) + [b]
    {
      bytes := bytes + [b];
    }

    method Extend(more: seq<byte>)
      modifies this
      ensures bytes == old(bytes) + more
    {
      bytes := bytes + more;
    }
  }

  method PushU16(v: u16, buf: ByteBuffer)
    modifies buf
    ensures buf.bytes == old(buf.bytes) + U16(v)
  {
    buf.Extend([v % 0x100, v / 0x100]);
  }

  method PushI16(v: i16, buf: ByteBuffer)
    modifies buf
    ensures buf.bytes == old(buf.bytes) + I16(v)
  {
    var u: u16 := if v < 0 then v as int + 0x1_0000 else v;
    PushU16(u, buf);
  }

  method PushU32(v: u32, buf: ByteBuffer)
    modifies buf
    ensures buf.bytes == old(buf.bytes) + U32(v)
  {
    hide U16;
    PushU16(v % 0x1_0000, buf);
    PushU16(v / 0x1_0000, buf);
  }

  method PushString(s: string, buf: ByteBuffer)
    modifies buf
    ensures buf.bytes == old(buf.bytes) + String(s)
  {
    hide U16;
    var bytes := Utf8.Encode(s);
    var len := Count(|bytes|);
    PushU16(len, buf);
    buf.Extend(bytes[..len]);
  }

  method EncodeColor(c: ColorData, buf: ByteBuffer)
    modifies buf
    ensures buf.bytes == old(buf.bytes) + ColorBytes(c)
  {
    match c {
      case DefaultColor =>
        buf.Push(0);
      case IndexedColor(i) =>
        buf.Push(1);
        buf.Push(i);
      case RgbColor(r, g, b) =>
        buf.Push(2);
        buf.Push(r);
        buf.Push(g);
        buf.Push(b);
    }
  }

  method EncodeCursorShape(s: CursorShape, buf: ByteBuffer)
    modifies buf
    ensures buf.bytes == old(buf.bytes) + ShapeBytes(s)
  {
    buf.Push(match s case Block => 0 case Underline => 1 case Bar => 2);
  }

  method EncodeCell(c: CellData, buf: ByteBuffer)
    modifies buf
    ensures buf.bytes == old(buf.bytes) + CellBytes(c)
  {
    hide String, ColorBytes, U16;
    PushString(c.grapheme, buf);
    EncodeColor(c.fg, buf);
    EncodeColor(c.bg, buf);
    PushU16(c.attrs, buf);
    buf.Push(c.flags);
  }

  method EncodeCells(cells: seq<CellData>, buf: ByteBuffer)
    modifies buf
    ensures buf.bytes == old(buf.bytes) + CellsBytes(cells)
  {
    hide CellBytes;
    for i := 0 to |cells|
      invariant buf.bytes + CellsBytes(cells[i..]) == old(buf.bytes) + CellsBytes(cells)
    {
      assert cells[i..][1..] == cells[i + 1..];
      EncodeCell(cells[i], buf);
    }
    assert cells[|cells|..] == [];
  }

  method EncodeDiffEntry(e: DiffEntry, buf: ByteBuffer)
    modifies buf
    ensures buf.bytes == old(buf.bytes) + EntryBytes(e)
  {
    ghost var o := buf.bytes;
    hide CellBytes, CellsBytes, U16, I16;
    match e {
      case CellChange(col, row, cell) =>
        buf.Push(1);
        PushU16(col, buf);
        PushU16(row, buf);
        EncodeCell(cell, buf);
        Appended6(o, [1], U16(col), U16(row), CellBytes(cell), [], []);
      case LineChange(row, cells) =>
        buf.Push(2);
        PushU16(row, buf);
        PushU16(Count(|cells|), buf);
        EncodeCells(cells, buf);
        Appended6(o, [2], U16(row), U16(Count(|cells|)), CellsBytes(cells), [], []);
      case RegionScroll(top, bottom, count) =>
        buf.Push(3);
        PushU16(top, buf);
        PushU16(bottom, buf);
        PushI16(count, buf);
        Appended6(o, [3], U16(top), U16(bottom), I16(count), [], []);
    }
  }

  method EncodeDiffEntries(es: seq<DiffEntry>, buf: ByteBuffer)
    modifies buf
    ensures buf.bytes == old(buf.bytes) + EntriesBytes(es)
  {
    hide EntryBytes;
    for i := 0 to |es|
      invariant buf.bytes + EntriesBytes(es[i..]) == old(buf.bytes) + EntriesBytes(es)
    {
      assert es[i..][1..] == es[i + 1..];
      EncodeDiffEntry(es[i], buf);
    }
    assert es[|es|..] == [];
  }

  method EncodeServerPayload(m: ServerMessage, buf: ByteBuffer)
    modifies buf
    ensures buf.bytes == old(buf.bytes) + ServerBytes(m)
  {
    ghost var o := buf.bytes;
    hide String, CellsBytes, EntriesBytes, ShapeBytes, U16, U32, Count;
    match m {
      case HandshakeResponse(version, name) =>
        buf.Push(0x01);
        PushU16(version, buf);
        PushString(name, buf);
        Appended3(o, [0x01], U16(version), String(name));
      case FullFrame(pane, cols, rows, cells) =>
        buf.Push(0x02);
        PushU32(pane, buf);
        PushU16(cols, buf);
        PushU16(rows, buf);
        PushU16(Count(|cells|), buf);
        EncodeCells(cells, buf);
        Appended6(o, [0x02], U32(pane), U16(cols), U16(rows), U16(Count(|cells|)), CellsBytes(cells));
      case FrameDiff(pane, diffs) =>
        buf.Push(0x03);
        PushU32(pane, buf);
        PushU16(Count(|diffs|), buf);
        EncodeDiffEntries(diffs, buf);
        Appended6(o, [0x03], U32(pane), U16(Count(|diffs|)), EntriesBytes(diffs), [], []);
      case CursorUpdate(pane, col, row, visible, shape) =>
        buf.Push(0x04);
        PushU32(pane, buf);
        PushU16(col, buf);
        PushU16(row, buf);
        buf.Push(if visible then 1 else 0);
        EncodeCursorShape(shape, buf);
        Appended6(o, [0x04], U32(pane), U16(col), U16(row), [if visible then 1 else 0], ShapeBytes(shape));
      case LayoutChange =>
        buf.Push(0x05);
      case StatusUpdate(content) =>
        buf.Push(0x06);
        PushString(content, buf);
        Appended3(o, [0x06], String(content), []);
      case Bell(pane) =>
        buf.Push(0x07);
        PushU32(pane, buf);
        Appended3(o, [0x07], U32(pane), []);
      case TitleChange(pane, title) =>
        buf.Push(0x08);
        PushU32(pane, buf);
        PushString(title, buf);
        Appended3(o, [0x08], U32(pane), String(title));
    }
  }

  method EncodeClientPayload(m: ClientMessage, buf: ByteBuffer)
    modifies buf
    ensures buf.bytes == old(buf.bytes) + ClientBytes(m)
  {
    ghost var o := buf.bytes;
    hide String, U16, Count;
    match m {
      case HandshakeRequest(version, cols, rows) =>
        buf.Push(0x10);
        PushU16(version, buf);
        PushU16(cols, buf);
        PushU16(rows, buf);
        Appended6(o, [0x10], U16(version), U16(cols), U16(rows), [], []);
      case KeyEvent(key, modifiers) =>
        buf.Push(0x11);
        PushU16(Count(|key|), buf);
        buf.Extend(key);
        buf.Push(modifiers);
        Appended6(o, [0x11], U16(Count(|key|)), key, [modifiers], [], []);
      case MouseEvent(button, col, row, modifiers) =>
        buf.Push(0x12);
        buf.Push(button);
        PushU16(col, buf);
        PushU16(row, buf);
        buf.Push(modifiers);
        Appended6(o, [0x12], [button], U16(col), U16(row), [modifiers], []);
      case Resize(cols, rows) =>
        buf.Push(0x13);
        PushU16(cols, buf);
        PushU16(rows, buf);
        Appended3(o, [0x13], U16(cols), U16(rows));
      case Command(name) =>
        buf.Push(0x14);
        PushString(name, buf);
        Appended3(o, [0x14], String(name), []);
      case PasteEvent(data) =>
        buf.Push(0x15);
        PushString(data, buf);
        Appended3(o, [0x15], String(data), []);
    }
  }

  /** Appends the framed payload, or reports that it is too large and appends nothing. */
  method WriteFrame(payload: seq<byte>, buf: ByteBuffer) returns (error: Option<WireError>)
    modifies buf
    ensures match Framed(payload)
            case Ok(frame) => error.None? && buf.bytes == old(buf.bytes) + frame
            case Err(e) => error == Some(e) && buf.bytes == old(buf.bytes)
  {
    hide U32;
    var len: u32 := |payload| % 0x1_0000_0000;
    if len > MAX_MESSAGE_SIZE {
      return Some(MessageTooLarge(len));
    }
    PushU32(len, buf);
    buf.Extend(payload);
    return None;
  }

  method EncodeServerMessage(m: ServerMessage, buf: ByteBuffer) returns (error: Option<WireError>)
    modifies buf
    ensures match Framed(ServerBytes(m))
            case Ok(frame) => error.None? && buf.bytes == old(buf.bytes) + frame
            case Err(e) => error == Some(e) && buf.bytes == old(buf.bytes)
  {
    hide ServerBytes, Framed;
    var payload := new ByteBuffer();
    EncodeServerPayload(m, payload);
    assert payload.bytes == ServerBytes(m);
    error := WriteFrame(payload.bytes, buf);
  }

  method EncodeClientMessage(m: ClientMessage, buf: ByteBuffer) returns (error: Option<WireError>)
    modifies buf
    ensures match Framed(ClientBytes(m))
            case Ok(frame) => error.None? && buf.bytes == old(buf.bytes) + frame
            case Err(e) => error == Some(e) && buf.bytes == old(buf.bytes)
  {
    hide ClientBytes, Framed;
    var payload := new ByteBuffer();
    EncodeClientPayload(m, payload);
    assert payload.bytes == ClientBytes(m);
    error := WriteFrame(payload.bytes, buf);
  }

  // -------------------------------------------------------------------------
  // Decoder
  // -------------------------------------------------------------------------

  /** A read gave what the bytes spell, and left what is behind it. */
  ghost predicate Reads<T>(spelled: Read<T>, result: Result<T, WireError>, rest: seq<byte>) {
    match spelled
    case Ok(read) => result == Ok(read.0) && rest == read.1
    case Err(e) => result == Err(e)
  }

  /** The elements read so far in front of what remains to be read. */
  function Behind<T>(xs: seq<T>, read: Read<seq<T>>): Read<seq<T>> {
    match read
    case Ok((ys, d)) => Ok((xs + ys, d))
    case Err(e) => Err(e)
  }

  class Cursor {
    const data: seq<byte>
    var pos: nat

    ghost predicate Valid()
      reads this
    {
      pos <= |data|
    }

    ghost function Rest(): seq<byte>
      requires Valid()
      reads this
    {
      data[pos..]
    }

    constructor (data: seq<byte>)
      ensures Valid() && Rest() == data && this.data == data
    {
      this.data := data;
      pos := 0;
    }

    function Remaining(): (n: nat)
      requires Valid()
      reads this
      ensures n == |Rest()|
    {
      |data| - pos
    }

    method ReadU8() returns (r: Result<byte, WireError>)
      requires Valid()
      modifies this
      ensures Valid() && Reads(GetU8(old(Rest())), r, Rest())
    {
      if Remaining() < 1 {
        return Err(Truncated);
      }
      assert data[pos..][1..] == data[pos + 1..];
      r := Ok(data[pos]);
      pos := pos + 1;
    }

    method ReadU16() returns (r: Result<u16, WireError>)
      requires Valid()
      modifies this
      ensures Valid() && Reads(GetU16(old(Rest())), r, Rest())
    {
      hide Pair;
      if Remaining() < 2 {
        return Err(Truncated);
      }
      assert data[pos..][2..] == data[pos + 2..];
      r := Ok(Pair(data[pos], data[pos + 1]));
      pos := pos + 2;
    }

    method ReadI16() returns (r: Result<i16, WireError>)
      requires Valid()
      modifies this
      ensures Valid() && Reads(GetI16(old(Rest())), r, Rest())
    {
      hide Pair;
      if Remaining() < 2 {
        return Err(Truncated);
      }
      assert data[pos..][2..] == data[pos + 2..];
      var v: int := Pair(data[pos], data[pos + 1]);
      r := Ok(if v < 0x8000 then v else v - 0x1_0000);
      pos := pos + 2;
    }

    method ReadU32() returns (r: Result<u32, WireError>)
      requires Valid()
      modifies this
      ensures Valid() && Reads(GetU32(old(Rest())), r, Rest())
    {
      hide Pair;
      if Remaining() < 4 {
        return Err(Truncated);
      }
      assert data[pos..][4..] == data[pos + 4..];
      r := Ok(Pair(data[pos], data[pos + 1]) as int + Pair(data[pos + 2], data[pos + 3]) as int * 0x1_0000);
      pos := pos + 4;
    }

    method ReadBytes(n: nat) returns (r: Result<seq<byte>, WireError>)
      requires Valid()
      modifies this
      ensures Valid() && Reads(GetBytes(old(Rest()), n), r, Rest())
    {
      if Remaining() < n {
        return Err(Truncated);
      }
      assert data[pos..][n..] == data[pos + n..] && data[pos..][..n] == data[pos..pos + n];
      r := Ok(data[pos..pos + n]);
      pos := pos + n;
    }

    method ReadString() returns (r: Result<string, WireError>)
      requires Valid()
      modifies this
      ensures Valid() && Reads(GetString(old(Rest())), r, Rest())
    {
      hide GetU16, GetBytes;
      var len :- ReadU16();
      var bytes :- ReadBytes(len);
      var s := Utf8.Decode(bytes);
      return if s.Some? then Ok(s.value) else Err(InvalidUtf8);
    }

    method ReadColor() returns (r: Result<ColorData, WireError>)
      requires Valid()
      modifies this
      ensures Valid() && Reads(GetColor(old(Rest())), r, Rest())
    {
      hide GetU8;
      var tag :- ReadU8();
      if tag == 0 {
        return Ok(DefaultColor);
      } else if tag == 1 {
        var i :- ReadU8();
        return Ok(IndexedColor(i));
      } else if tag == 2 {
        var red :- ReadU8();
        var green :- ReadU8();
        var blue :- ReadU8();
        return Ok(RgbColor(red, green, blue));
      }
      return Err(UnknownMessageType(tag));
    }

    method ReadCursorShape() returns (r: Result<CursorShape, WireError>)
      requires Valid()
      modifies this
      ensures Valid() && Reads(GetShape(old(Rest())), r, Rest())
    {
      hide GetU8;
      var tag :- ReadU8();
      if tag == 0 {
        return Ok(Block);
      } else if tag == 1 {
        return Ok(Underline);
      } else if tag == 2 {
        return Ok(Bar);
      }
      return Err(UnknownMessageType(tag));
    }

    method ReadCell() returns (r: Result<CellData, WireError>)
      requires Valid()
      modifies this
      ensures Valid() && Reads(GetCell(old(Rest())), r, Rest())
    {
      hide GetString, GetColor, GetU16, GetU8;
      var grapheme :- ReadString();
      var fg :- ReadColor();
      var bg :- ReadColor();
      var attrs :- ReadU16();
      var flags :- ReadU8();
      return Ok(CellData(grapheme, fg, bg, attrs, flags));
    }

    method ReadCells(count: nat) returns (r: Result<seq<CellData>, WireError>)
      requires Valid()
      modifies this
      ensures Valid() && Reads(GetCells(old(Rest()), count), r, Rest())
    {
      hide GetCell;
      var cells := [];
      NothingBehind(GetCells(Rest(), count));
      for i := 0 to count
        invariant Valid()
        invariant GetCells(old(Rest()), count) == Behind(cells, GetCells(Rest(), count - i))
      {
        var cell :- ReadCell();
        MoreBehind(cells, cell, GetCells(Rest(), count - i - 1));
        cells := cells + [cell];
      }
      assert cells + [] == cells;
      return Ok(cells);
    }

    method ReadDiffEntry() returns (r: Result<DiffEntry, WireError>)
      requires Valid()
      modifies this
      ensures Valid() && Reads(GetEntry(old(Rest())), r, Rest())
    {
      hide GetCell, GetCells, GetU16, GetI16, GetU8;
      var tag :- ReadU8();
      if tag == 1 {
        var col :- ReadU16();
        var row :- ReadU16();
        var cell :- ReadCell();
        return Ok(CellChange(col, row, cell));
      } else if tag == 2 {
        var row :- ReadU16();
        var count :- ReadU16();
        var cells :- ReadCells(count);
        return Ok(LineChange(row, cells));
      } else if tag == 3 {
        var top :- ReadU16();
        var bottom :- ReadU16();
        var count :- ReadI16();
        return Ok(RegionScroll(top, bottom, count));
      }
      return Err(UnknownMessageType(tag));
    }

    method ReadDiffEntries(count: nat) returns (r: Result<seq<DiffEntry>, WireError>)
      requires Valid()
      modifies this
      ensures Valid() && Reads(GetEntries(old(Rest()), count), r, Rest())
    {
      hide GetEntry;
      var diffs := [];
      NothingBehind(GetEntries(Rest(), count));
      for i := 0 to count
        invariant Valid()
        invariant GetEntries(old(Rest()), count) == Behind(diffs, GetEntries(Rest(), count - i))
      {
        var entry :- ReadDiffEntry();
        MoreBehind(diffs, entry, GetEntries(Rest(), count - i - 1));
        diffs := diffs + [entry];
      }
      assert diffs + [] == diffs;
      return Ok(diffs);
    }

    method ReadServerMessage() returns (r: Result<ServerMessage, WireError>)
      requires Valid()
      modifies this
      ensures Valid() && Reads(GetServer(old(Rest())), r, Rest())
    {
      hide GetString, GetCells, GetEntries, GetU16, GetU32, GetU8, GetShape;
      var tag :- ReadU8();
      if tag == 0x01 {
        var version :- ReadU16();
        var name :- ReadString();
        return Ok(HandshakeResponse(version, name));
      } else if tag == 0x02 {
        var pane :- ReadU32();
        var cols :- ReadU16();
        var rows :- ReadU16();
        var count :- ReadU16();
        var cells :- ReadCells(count);
        return Ok(FullFrame(pane, cols, rows, cells));
      } else if tag == 0x03 {
        var pane :- ReadU32();
        var count :- ReadU16();
        var diffs :- ReadDiffEntries(count);
        return Ok(FrameDiff(pane, diffs));
      } else if tag == 0x04 {
        var pane :- ReadU32();
        var col :- ReadU16();
        var row :- ReadU16();
        var visible :- ReadU8();
        var shape :- ReadCursorShape();
        return Ok(CursorUpdate(pane, col, row, visible != 0, shape));
      } else if tag == 0x05 {
        return Ok(LayoutChange);
      } else if tag == 0x06 {
        var content :- ReadString();
        return Ok(StatusUpdate(content));
      } else if tag == 0x07 {
        var pane :- ReadU32();
        return Ok(Bell(pane));
      } else if tag == 0x08 {
        var pane :- ReadU32();
        var title :- ReadString();
        return Ok(TitleChange(pane, title));
      }
      return Err(UnknownMessageType(tag));
    }

    method ReadClientMessage() returns (r: Result<ClientMessage, WireError>)
      requires Valid()
      modifies this
      ensures Valid() && Reads(GetClient(old(Rest())), r, Rest())
    {
      hide GetString, GetBytes, GetU16, GetU8;
      var tag :- ReadU8();
      if tag == 0x10 {
        var version :- ReadU16();
        var cols :- ReadU16();
        var rows :- ReadU16();
        return Ok(HandshakeRequest(version, cols, rows));
      } else if tag == 0x11 {
        var len :- ReadU16();
        var key :- ReadBytes(len);
        var modifiers :- ReadU8();
        return Ok(KeyEvent(key, modifiers));
      } else if tag == 0x12 {
        var button :- ReadU8();
        var col :- ReadU16();
        var row :- ReadU16();
        var modifiers :- ReadU8();
        return Ok(MouseEvent(button, col, row, modifiers));
      } else if tag == 0x13 {
        var cols :- ReadU16();
        var rows :- ReadU16();
        return Ok(Resize(cols, rows));
      } else if tag == 0x14 {
        var name :- ReadString();
        return Ok(Command(name));
      } else if tag == 0x15 {
        var data :- ReadString();
        return Ok(PasteEvent(data));
      }
      return Err(UnknownMessageType(tag));
    }
  }

  lemma NothingBehind<T>(read: Read<seq<T>>)
    ensures Behind([], read) == read
  {
    if read.Ok? { assert [] + read.value.0 == read.value.0; }
  }

  lemma MoreBehind<T>(xs: seq<T>, x: T, read: Read<seq<T>>)
    ensures Behind(xs + [x], read) == Behind(xs, Behind([x], read))
  {
    if read.Ok? { assert xs + [x] + read.value.0 == xs + ([x] + read.value.0); }
  }

  /** The message at the front of the payload and the number of bytes it takes. */
  method DecodeServerMessage(payload: seq<byte>) returns (r: Result<(ServerMessage, nat), WireError>)
    ensures match GetServer(payload)
            case Ok(read) => r == Ok((read.0, |payload| - |read.1|))
            case Err(e) => r == Err(e)
  {
    hide GetServer;
    var cursor := new Cursor(payload);
    var m :- cursor.ReadServerMessage();
    return Ok((m, cursor.pos));
  }

  method DecodeClientMessage(payload: seq<byte>) returns (r: Result<(ClientMessage, nat), WireError>)
    ensures match GetClient(payload)
            case Ok(read) => r == Ok((read.0, |payload| - |read.1|))
            case Err(e) => r == Err(e)
  {
    hide GetClient;
    var cursor := new Cursor(payload);
    var m :- cursor.ReadClientMessage();
    return Ok((m, cursor.pos));
  }
}
