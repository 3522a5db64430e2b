/** How many bytes settle what the decoder says: "truncated" is never the last word. */
module WireBounds {
  import opened Common
  import opened Wire
  import opened WireVerdicts

  /** With `k` bytes the reader is not cut short, and it takes no more than these. */
  predicate Settled<T(==)>(r: Read<T>, d: seq<byte>, k: nat) {
    |d| >= k ==> r != Err(Truncated) && (r.Ok? ==> |r.value.1| + k >= |d|)
  }

  /** The verdict on some bytes and on the same bytes followed by `e` are the same. */
  predicate SameVerdict<T(==)>(short: Read<T>, long: Read<T>, e: seq<byte>) {
    match short
    case Ok((v, rest)) => long == Ok((v, rest + e))
    case Err(error) => long == Err(error)
  }

  const STRING_MAX: nat := 2 + 0xFFFF
  const COLOR_MAX: nat := 4
  const CELL_MAX: nat := STRING_MAX + COLOR_MAX + COLOR_MAX + 3
  const ENTRY_MAX: nat := 5 + 0xFFFF * CELL_MAX
  const MESSAGE_MAX: nat := 11 + 0xFFFF * ENTRY_MAX

  lemma NumbersSettled(d: seq<byte>)
    ensures Settled(GetU8(d), d, 1) && Settled(GetU16(d), d, 2) && Settled(GetI16(d), d, 2) && Settled(GetU32(d), d, 4)
  {
  }

  lemma StringSettled(d: seq<byte>)
    ensures Settled(GetString(d), d, STRING_MAX)
  {
    hide GetU16;
    NumbersSettled(d);
  }

  lemma ColorSettled(d: seq<byte>)
    ensures Settled(GetColor(d), d, COLOR_MAX) && Settled(GetShape(d), d, 1)
  {
    hide GetU8;
    NumbersSettled(d);
    if GetU8(d).Ok? {
      var d1 := GetU8(d).value.1;
      NumbersSettled(d1);
      if GetU8(d1).Ok? {
        var d2 := GetU8(d1).value.1;
        NumbersSettled(d2);
        if GetU8(d2).Ok? {
          NumbersSettled(GetU8(d2).value.1);
        }
      }
    }
  }

  lemma CellSettled(d: seq<byte>)
    ensures Settled(GetCell(d), d, CELL_MAX)
  {
    hide GetString, GetColor, GetU16, GetU8;
    StringSettled(d);
    if GetString(d).Ok? {
      var d1 := GetString(d).value.1;
      ColorSettled(d1);
      if GetColor(d1).Ok? {
        var d2 := GetColor(d1).value.1;
        ColorSettled(d2);
        if GetColor(d2).Ok? {
          var d3 := GetColor(d2).value.1;
          NumbersSettled(d3);
          if GetU16(d3).Ok? {
            NumbersSettled(GetU16(d3).value.1);
          }
        }
      }
    }
  }

  lemma {:induction false} CellsSettled(d: seq<byte>, n: nat)
    ensures Settled(GetCells(d, n), d, n * CELL_MAX)
    decreases n
  {
    hide GetCell;
    if n > 0 {
      CellSettled(d);
      if GetCell(d).Ok? {
        CellsSettled(GetCell(d).value.1, n - 1);
      }
    }
  }

  lemma EntrySettled(d: seq<byte>)
    ensures Settled(GetEntry(d), d, ENTRY_MAX)
  {
    hide GetU8, GetU16, GetI16, GetCell, GetCells;
    NumbersSettled(d);
    if GetU8(d).Ok? {
      var d1 := GetU8(d).value.1;
      NumbersSettled(d1);
      if GetU16(d1).Ok? {
        var d2 := GetU16(d1).value.1;
        NumbersSettled(d2);
        if GetU16(d2).Ok? {
          var (n, d3) := GetU16(d2).value;
          CellSettled(d3);
          CellsSettled(d3, n);
          NumbersSettled(d3);
        }
      }
    }
  }

  lemma {:induction false} EntriesSettled(d: seq<byte>, n: nat)
    ensures Settled(GetEntries(d, n), d, n * ENTRY_MAX)
    decreases n
  {
    hide GetEntry;
    if n > 0 {
      EntrySettled(d);
      if GetEntry(d).Ok? {
        EntriesSettled(GetEntry(d).value.1, n - 1);
      }
    }
  }

  // -------------------------------------------------------------------------
  // Messages from the server
  // -------------------------------------------------------------------------

  lemma FullFrameSettled(d: seq<byte>)
    ensures Settled(GetFullFrame(d), d, 10 + 0xFFFF * CELL_MAX)
  {
    hide GetU16, GetU32, GetCells;
    NumbersSettled(d);
    if GetU32(d).Ok? {
      var d1 := GetU32(d).value.1;
      NumbersSettled(d1);
      if GetU16(d1).Ok? {
        var d2 := GetU16(d1).value.1;
        NumbersSettled(d2);
        if GetU16(d2).Ok? {
          var d3 := GetU16(d2).value.1;
          NumbersSettled(d3);
          if GetU16(d3).Ok? {
            var (n, d4) := GetU16(d3).value;
            CellsSettled(d4, n);
          }
        }
      }
    }
  }

  lemma FrameDiffSettled(d: seq<byte>)
    ensures Settled(GetFrameDiff(d), d, 6 + 0xFFFF * ENTRY_MAX)
  {
    hide GetU16, GetU32, GetEntries;
    NumbersSettled(d);
    if GetU32(d).Ok? {
      var d1 := GetU32(d).value.1;
      NumbersSettled(d1);
      if GetU16(d1).Ok? {
        var (n, d2) := GetU16(d1).value;
        EntriesSettled(d2, n);
      }
    }
  }

  lemma CursorUpdateSettled(d: seq<byte>)
    ensures Settled(GetCursorUpdate(d), d, 10)
  {
    hide GetU8, GetU16, GetU32, GetShape;
    NumbersSettled(d);
    if GetU32(d).Ok? {
      var d1 := GetU32(d).value.1;
      NumbersSettled(d1);
      if GetU16(d1).Ok? {
        var d2 := GetU16(d1).value.1;
        NumbersSettled(d2);
        if GetU16(d2).Ok? {
          var d3 := GetU16(d2).value.1;
          NumbersSettled(d3);
          if GetU8(d3).Ok? {
            ColorSettled(GetU8(d3).value.1);
          }
        }
      }
    }
  }

  lemma ShortServerSettled(d: seq<byte>)
    ensures Settled(GetHandshakeResponse(d), d, 2 + STRING_MAX)
    ensures Settled(GetStatusUpdate(d), d, STRING_MAX)
    ensures Settled(GetBell(d), d, 4)
    ensures Settled(GetTitleChange(d), d, 4 + STRING_MAX)
  {
    hide GetU16, GetU32, GetString;
    NumbersSettled(d);
    StringSettled(d);
    if GetU16(d).Ok? {
      StringSettled(GetU16(d).value.1);
    }
    if GetU32(d).Ok? {
      StringSettled(GetU32(d).value.1);
    }
  }

  lemma ServerSettled(d: seq<byte>)
    requires |d| >= MESSAGE_MAX
    ensures GetServer(d) != Err(Truncated)
  {
    hide GetU8, GetHandshakeResponse, GetFullFrame, GetFrameDiff, GetCursorUpdate, GetStatusUpdate, GetBell,
      GetTitleChange;
    NumbersSettled(d);
    if GetU8(d).Ok? {
      var d1 := GetU8(d).value.1;
      FullFrameSettled(d1);
      FrameDiffSettled(d1);
      CursorUpdateSettled(d1);
      ShortServerSettled(d1);
    }
  }

  /** The verdict is the same whatever follows. */
  ghost predicate ServerFinal(d: seq<byte>) {
    forall e: seq<byte> :: SameVerdict(GetServer(d), GetServer(d + e), e)
  }

  /** A verdict on bytes from the server is final exactly when it is not "truncated": behind
      truncated bytes, enough others give another verdict. */
  lemma ServerFinalIff(d: seq<byte>)
    ensures ServerFinal(d) <==> GetServer(d) != Err(Truncated)
  {
    hide GetServer;
    if GetServer(d) == Err(Truncated) {
      var e := Repeat(0 as byte, MESSAGE_MAX);
      ServerSettled(d + e);
      assert GetServer(d + e) != Err(Truncated);
    } else {
      forall e: seq<byte> ensures Final(GetServer(d), GetServer(d + e), e) {
        ServerVerdictIsFinal(d, e);
      }
    }
  }

  // -------------------------------------------------------------------------
  // Messages from the client
  // -------------------------------------------------------------------------

  lemma KeyEventSettled(d: seq<byte>)
    ensures Settled(GetKeyEvent(d), d, STRING_MAX + 1)
  {
    hide GetU8, GetU16;
    NumbersSettled(d);
    if GetU16(d).Ok? {
      var (n, d1) := GetU16(d).value;
      if GetBytes(d1, n).Ok? {
        NumbersSettled(GetBytes(d1, n).value.1);
      }
    }
  }

  lemma MouseEventSettled(d: seq<byte>)
    ensures Settled(GetMouseEvent(d), d, 6)
  {
    hide GetU8, GetU16;
    NumbersSettled(d);
    if GetU8(d).Ok? {
      var d1 := GetU8(d).value.1;
      NumbersSettled(d1);
      if GetU16(d1).Ok? {
        var d2 := GetU16(d1).value.1;
        NumbersSettled(d2);
        if GetU16(d2).Ok? {
          NumbersSettled(GetU16(d2).value.1);
        }
      }
    }
  }

  lemma ShortClientSettled(d: seq<byte>)
    ensures Settled(GetHandshakeRequest(d), d, 6)
    ensures Settled(GetResize(d), d, 4)
    ensures Settled(GetCommand(d), d, STRING_MAX)
    ensures Settled(GetPasteEvent(d), d, STRING_MAX)
  {
    hide GetU16, GetString;
    StringSettled(d);
    NumbersSettled(d);
    if GetU16(d).Ok? {
      var d1 := GetU16(d).value.1;
      NumbersSettled(d1);
      if GetU16(d1).Ok? {
        NumbersSettled(GetU16(d1).value.1);
      }
    }
  }

  lemma ClientSettled(d: seq<byte>)
    requires |d| >= STRING_MAX + 2
    ensures GetClient(d) != Err(Truncated)
  {
    hide GetU8, GetHandshakeRequest, GetKeyEvent, GetMouseEvent, GetResize, GetCommand, GetPasteEvent;
    NumbersSettled(d);
    if GetU8(d).Ok? {
      var d1 := GetU8(d).value.1;
      KeyEventSettled(d1);
      MouseEventSettled(d1);
      ShortClientSettled(d1);
    }
  }

  ghost predicate ClientFinal(d: seq<byte>) {
    forall e: seq<byte> :: SameVerdict(GetClient(d), GetClient(d + e), e)
  }

  /** The same for the client. */
  lemma ClientFinalIff(d: seq<byte>)
    ensures ClientFinal(d) <==> GetClient(d) != Err(Truncated)
  {
    hide GetClient;
    if GetClient(d) == Err(Truncated) {
      var e := Repeat(0 as byte, STRING_MAX + 2);
      ClientSettled(d + e);
      assert GetClient(d + e) != Err(Truncated);
    } else {
      forall e: seq<byte> ensures Final(GetClient(d), GetClient(d + e), e) {
        ClientVerdictIsFinal(d, e);
      }
    }
  }
}
