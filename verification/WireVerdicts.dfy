/** What the decoder says about the front of a message: everything but "truncated" is final,
    and every message cut short is called truncated. */
module WireVerdicts {
  import opened Common
  import opened Protocol
  import opened Wire
  import opened WireProperties

  /** The verdict on some bytes, next to the verdict on the same bytes followed by `e`. */
  predicate Final<T(==)>(short: Read<T>, long: Read<T>, e: seq<byte>) {
    match short
    case Ok((v, r)) => long == Ok((v, r + e))
    case Err(x) => x == Truncated || long == Err(x)
  }

  // -------------------------------------------------------------------------
  // Primitives
  // -------------------------------------------------------------------------

  lemma U8Final(d: seq<byte>, e: seq<byte>)
    ensures Final(GetU8(d), GetU8(d + e), e)
  {
    if |d| >= 1 {
      assert (d + e)[1..] == d[1..] + e;
    }
  }

  lemma U16Final(d: seq<byte>, e: seq<byte>)
    ensures Final(GetU16(d), GetU16(d + e), e)
  {
    if |d| >= 2 {
      assert (d + e)[2..] == d[2..] + e;
    }
  }

  lemma I16Final(d: seq<byte>, e: seq<byte>)
    ensures Final(GetI16(d), GetI16(d + e), e)
  {
    if |d| >= 2 {
      assert (d + e)[2..] == d[2..] + e;
    }
  }

  lemma U32Final(d: seq<byte>, e: seq<byte>)
    ensures Final(GetU32(d), GetU32(d + e), e)
  {
    if |d| >= 4 {
      assert (d + e)[..4] == d[..4] && (d + e)[4..] == d[4..] + e;
    }
  }

  lemma BytesFinal(d: seq<byte>, n: nat, e: seq<byte>)
    ensures Final(GetBytes(d, n), GetBytes(d + e, n), e)
  {
    if |d| >= n {
      assert (d + e)[..n] == d[..n] && (d + e)[n..] == d[n..] + e;
    }
  }

  lemma StringFinal(d: seq<byte>, e: seq<byte>)
    ensures Final(GetString(d), GetString(d + e), e)
  {
    hide GetU16, GetBytes;
    U16Final(d, e);
    if GetU16(d).Ok? {
      var (n, d1) := GetU16(d).value;
      BytesFinal(d1, n, e);
    }
  }

  lemma ColorFinal(d: seq<byte>, e: seq<byte>)
    ensures Final(GetColor(d), GetColor(d + e), e)
  {
    hide GetU8;
    U8Final(d, e);
    if GetU8(d).Ok? {
      var (tag, d1) := GetU8(d).value;
      U8Final(d1, e);
      if GetU8(d1).Ok? {
        var d2 := GetU8(d1).value.1;
        U8Final(d2, e);
        if GetU8(d2).Ok? {
          U8Final(GetU8(d2).value.1, e);
        }
      }
    }
  }

  lemma ShapeFinal(d: seq<byte>, e: seq<byte>)
    ensures Final(GetShape(d), GetShape(d + e), e)
  {
    hide GetU8;
    U8Final(d, e);
  }

  // -------------------------------------------------------------------------
  // Cells and diff entries
  // -------------------------------------------------------------------------

  lemma CellFinal(d: seq<byte>, e: seq<byte>)
    ensures Final(GetCell(d), GetCell(d + e), e)
  {
    hide GetString, GetColor, GetU16, GetU8;
    StringFinal(d, e);
    if GetString(d).Ok? {
      var d1 := GetString(d).value.1;
      ColorFinal(d1, e);
      if GetColor(d1).Ok? {
        var d2 := GetColor(d1).value.1;
        ColorFinal(d2, e);
        if GetColor(d2).Ok? {
          var d3 := GetColor(d2).value.1;
          U16Final(d3, e);
          if GetU16(d3).Ok? {
            U8Final(GetU16(d3).value.1, e);
          }
        }
      }
    }
  }

  lemma {:induction false} CellsFinal(d: seq<byte>, n: nat, e: seq<byte>)
    ensures Final(GetCells(d, n), GetCells(d + e, n), e)
    decreases n
  {
    hide GetCell;
    if n > 0 {
      CellFinal(d, e);
      if GetCell(d).Ok? {
        CellsFinal(GetCell(d).value.1, n - 1, e);
      }
    }
  }

  lemma EntryFinal(d: seq<byte>, e: seq<byte>)
    ensures Final(GetEntry(d), GetEntry(d + e), e)
  {
    hide GetU8, GetU16, GetI16, GetCell, GetCells;
    U8Final(d, e);
    if GetU8(d).Ok? {
      var (tag, d1) := GetU8(d).value;
      U16Final(d1, e);
      if GetU16(d1).Ok? {
        var d2 := GetU16(d1).value.1;
        U16Final(d2, e);
        if GetU16(d2).Ok? {
          var (n, d3) := GetU16(d2).value;
          CellFinal(d3, e);
          CellsFinal(d3, n, e);
          I16Final(d3, e);
        }
      }
    }
  }

  lemma {:induction false} EntriesFinal(d: seq<byte>, n: nat, e: seq<byte>)
    ensures Final(GetEntries(d, n), GetEntries(d + e, n), e)
    decreases n
  {
    hide GetEntry;
    if n > 0 {
      EntryFinal(d, e);
      if GetEntry(d).Ok? {
        EntriesFinal(GetEntry(d).value.1, n - 1, e);
      }
    }
  }

  // -------------------------------------------------------------------------
  // Messages from the server
  // -------------------------------------------------------------------------

  lemma FullFrameFinal(d: seq<byte>, e: seq<byte>)
    ensures Final(GetFullFrame(d), GetFullFrame(d + e), e)
  {
    hide GetU16, GetU32, GetCells;
    U32Final(d, e);
    if GetU32(d).Ok? {
      var d1 := GetU32(d).value.1;
      U16Final(d1, e);
      if GetU16(d1).Ok? {
        var d2 := GetU16(d1).value.1;
        U16Final(d2, e);
        if GetU16(d2).Ok? {
          var d3 := GetU16(d2).value.1;
          U16Final(d3, e);
          if GetU16(d3).Ok? {
            var (n, d4) := GetU16(d3).value;
            CellsFinal(d4, n, e);
          }
        }
      }
    }
  }

  lemma FrameDiffFinal(d: seq<byte>, e: seq<byte>)
    ensures Final(GetFrameDiff(d), GetFrameDiff(d + e), e)
  {
    hide GetU16, GetU32, GetEntries;
    U32Final(d, e);
    if GetU32(d).Ok? {
      var d1 := GetU32(d).value.1;
      U16Final(d1, e);
      if GetU16(d1).Ok? {
        var (n, d2) := GetU16(d1).value;
        EntriesFinal(d2, n, e);
      }
    }
  }

  lemma CursorUpdateFinal(d: seq<byte>, e: seq<byte>)
    ensures Final(GetCursorUpdate(d), GetCursorUpdate(d + e), e)
  {
    hide GetU8, GetU16, GetU32, GetShape;
    U32Final(d, e);
    if GetU32(d).Ok? {
      var d1 := GetU32(d).value.1;
      U16Final(d1, e);
      if GetU16(d1).Ok? {
        var d2 := GetU16(d1).value.1;
        U16Final(d2, e);
        if GetU16(d2).Ok? {
          var d3 := GetU16(d2).value.1;
          U8Final(d3, e);
          if GetU8(d3).Ok? {
            ShapeFinal(GetU8(d3).value.1, e);
          }
        }
      }
    }
  }

  lemma ShortServerFinal(d: seq<byte>, e: seq<byte>)
    ensures Final(GetHandshakeResponse(d), GetHandshakeResponse(d + e), e)
    ensures Final(GetStatusUpdate(d), GetStatusUpdate(d + e), e)
    ensures Final(GetBell(d), GetBell(d + e), e)
    ensures Final(GetTitleChange(d), GetTitleChange(d + e), e)
  {
    hide GetU16, GetU32, GetString;
    U16Final(d, e);
    if GetU16(d).Ok? {
      StringFinal(GetU16(d).value.1, e);
    }
    StringFinal(d, e);
    U32Final(d, e);
    if GetU32(d).Ok? {
      StringFinal(GetU32(d).value.1, e);
    }
  }

  /** A verdict on bytes from the server is final unless it is "truncated": a message stays the
      message, and an error that error, whatever bytes follow. */
  lemma ServerVerdictIsFinal(d: seq<byte>, e: seq<byte>)
    ensures Final(GetServer(d), GetServer(d + e), e)
  {
    hide GetU8, GetHandshakeResponse, GetFullFrame, GetFrameDiff, GetCursorUpdate, GetStatusUpdate, GetBell,
      GetTitleChange;
    U8Final(d, e);
    if GetU8(d).Ok? {
      var d1 := GetU8(d).value.1;
      FullFrameFinal(d1, e);
      FrameDiffFinal(d1, e);
      CursorUpdateFinal(d1, e);
      ShortServerFinal(d1, e);
    }
  }

  lemma Prefix(b: seq<byte>, k: nat)
    requires k < |b|
    ensures b[..k] + b[k..] == b && b[k..] != []
  {
  }

  /** Every sendable message from the server that is cut short, anywhere, is refused as
      truncated: it is never taken for another message or another error. */
  lemma ServerCutIsTruncated(m: ServerMessage, k: nat)
    requires ServerFits(m) && k < |ServerBytes(m)|
    ensures GetServer(ServerBytes(m)[..k]) == Err(Truncated)
  {
    hide GetServer, ServerBytes, ServerFits;
    var b := ServerBytes(m);
    Prefix(b, k);
    ServerReads(m, []);
    assert b + [] == b;
    ServerVerdictIsFinal(b[..k], b[k..]);
  }

  // -------------------------------------------------------------------------
  // Messages from the client
  // -------------------------------------------------------------------------

  lemma KeyEventFinal(d: seq<byte>, e: seq<byte>)
    ensures Final(GetKeyEvent(d), GetKeyEvent(d + e), e)
  {
    hide GetU8, GetU16, GetBytes;
    U16Final(d, e);
    if GetU16(d).Ok? {
      var (n, d1) := GetU16(d).value;
      BytesFinal(d1, n, e);
      if GetBytes(d1, n).Ok? {
        U8Final(GetBytes(d1, n).value.1, e);
      }
    }
  }

  lemma MouseEventFinal(d: seq<byte>, e: seq<byte>)
    ensures Final(GetMouseEvent(d), GetMouseEvent(d + e), e)
  {
    hide GetU8, GetU16;
    U8Final(d, e);
    if GetU8(d).Ok? {
      var d1 := GetU8(d).value.1;
      U16Final(d1, e);
      if GetU16(d1).Ok? {
        var d2 := GetU16(d1).value.1;
        U16Final(d2, e);
        if GetU16(d2).Ok? {
          U8Final(GetU16(d2).value.1, e);
        }
      }
    }
  }

  lemma ShortClientFinal(d: seq<byte>, e: seq<byte>)
    ensures Final(GetHandshakeRequest(d), GetHandshakeRequest(d + e), e)
    ensures Final(GetResize(d), GetResize(d + e), e)
    ensures Final(GetCommand(d), GetCommand(d + e), e)
    ensures Final(GetPasteEvent(d), GetPasteEvent(d + e), e)
  {
    hide GetU16, GetString;
    StringFinal(d, e);
    U16Final(d, e);
    if GetU16(d).Ok? {
      var d1 := GetU16(d).value.1;
      U16Final(d1, e);
      if GetU16(d1).Ok? {
        U16Final(GetU16(d1).value.1, e);
      }
    }
  }

  lemma ClientVerdictIsFinal(d: seq<byte>, e: seq<byte>)
    ensures Final(GetClient(d), GetClient(d + e), e)
  {
    hide GetU8, GetHandshakeRequest, GetKeyEvent, GetMouseEvent, GetResize, GetCommand, GetPasteEvent;
    U8Final(d, e);
    if GetU8(d).Ok? {
      var d1 := GetU8(d).value.1;
      KeyEventFinal(d1, e);
      MouseEventFinal(d1, e);
      ShortClientFinal(d1, e);
    }
  }

  lemma ClientCutIsTruncated(m: ClientMessage, k: nat)
    requires ClientFits(m) && k < |ClientBytes(m)|
    ensures GetClient(ClientBytes(m)[..k]) == Err(Truncated)
  {
    hide GetClient, ClientBytes, ClientFits;
    var b := ClientBytes(m);
    Prefix(b, k);
    ClientReads(m, []);
    assert b + [] == b;
    ClientVerdictIsFinal(b[..k], b[k..]);
  }

  // -------------------------------------------------------------------------
  // The wrong direction
  // -------------------------------------------------------------------------

  /** An unknown first byte, and an empty payload, are reported as such. */
  lemma UnknownTags(d: seq<byte>)
    ensures d == [] ==> GetServer(d) == Err(Truncated) && GetClient(d) == Err(Truncated)
    ensures d != [] && !(0x01 <= d[0] <= 0x08) ==> GetServer(d) == Err(UnknownMessageType(d[0]))
    ensures d != [] && !(0x10 <= d[0] <= 0x15) ==> GetClient(d) == Err(UnknownMessageType(d[0]))
  {
    hide GetU16, GetU32, GetString, GetCells, GetEntries, GetShape, GetBytes;
  }

  /** No bytes are a message in both directions: what one decoder accepts, the other refuses by
      its first byte, however much follows. */
  lemma DirectionsAreApart(d: seq<byte>, e: seq<byte>)
    requires d != []
    ensures GetServer(d).Ok? ==> GetClient(d + e) == Err(UnknownMessageType(d[0]))
    ensures GetClient(d).Ok? ==> GetServer(d + e) == Err(UnknownMessageType(d[0]))
  {
    hide GetServer, GetClient;
    UnknownTags(d);
    ServerVerdictIsFinal(d, e);
    ClientVerdictIsFinal(d, e);
  }
}
