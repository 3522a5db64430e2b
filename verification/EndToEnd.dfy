/** From frames on the server to cells on the client's terminal: frames become messages,
    messages become bytes, bytes are read back and rendered, and the terminal shows the last
    frame. */
module EndToEnd {
  import opened Common
  import opened Cells
  import opened Protocol
  import opened Terminals
  import opened Render
  import opened Diff
  import opened ClosedLoop
  import opened ClosedLoopFrames
  import opened WideDiffs
  import opened Wire
  import Utf8
  import C = Codec

  /** The largest number of cells that a full frame can carry. */
  const MAX_CELLS: nat := 0xFFFF

  // -------------------------------------------------------------------------
  // Sizes on the wire
  // -------------------------------------------------------------------------

  /** Every cell holds one scalar. */
  predicate AllSingle(cells: seq<CellData>) {
    forall i :: 0 <= i < |cells| ==> |cells[i].grapheme| == 1
  }

  predicate SingleFrames(frames: seq<Frame>) {
    forall i :: 0 <= i < |frames| ==> AllSingle(frames[i].cells)
  }

  lemma SingleCellBytes(c: CellData)
    requires |c.grapheme| == 1
    ensures StringFits(c.grapheme) && |CellBytes(c)| <= 17
  {
    hide Utf8.EncodeScalar;
    assert c.grapheme[1..] == [];
    assert Utf8.Encode(c.grapheme) == Utf8.EncodeScalar(c.grapheme[0]) + [];
    assert |String(c.grapheme)| <= 6;
    assert |ColorBytes(c.fg)| <= 4 && |ColorBytes(c.bg)| <= 4;
  }

  predicate StringsFit(cells: seq<CellData>) {
    forall i :: 0 <= i < |cells| ==> StringFits(cells[i].grapheme)
  }

  lemma {:induction false} SingleCellsBytes(cells: seq<CellData>)
    requires AllSingle(cells)
    ensures StringsFit(cells) && |CellsBytes(cells)| <= 17 * |cells|
  {
    hide CellBytes, StringFits;
    if cells != [] {
      SingleCellBytes(cells[0]);
      SingleCellsBytes(cells[1..]);
      assert forall i :: 0 < i < |cells| ==> cells[i] == cells[1..][i - 1];
    }
  }

  /** What a list of diff entries takes: at most `n` entries of 22 bytes each. */
  predicate Small(es: seq<DiffEntry>, n: nat) {
    |es| <= n && |EntriesBytes(es)| <= 22 * n && forall i :: 0 <= i < |es| ==> EntryFits(es[i])
  }

  lemma {:induction false} EntriesBytesConcat(a: seq<DiffEntry>, b: seq<DiffEntry>)
    ensures |EntriesBytes(a + b)| == |EntriesBytes(a)| + |EntriesBytes(b)|
  {
    hide EntryBytes;
    if a == [] {
      assert a + b == b;
    } else {
      assert (a + b)[1..] == a[1..] + b;
      EntriesBytesConcat(a[1..], b);
    }
  }

  lemma SmallConcat(a: seq<DiffEntry>, b: seq<DiffEntry>, m: nat, n: nat)
    requires Small(a, m) && Small(b, n)
    ensures Small(a + b, m + n)
  {
    hide EntriesBytes, EntryFits;
    EntriesBytesConcat(a, b);
  }

  lemma SmallOne(e: DiffEntry, n: nat)
    requires EntryFits(e) && |EntryBytes(e)| <= 22 * n && n > 0
    ensures Small([e], n)
  {
    hide EntryBytes, EntryFits;
    assert [e][1..] == [];
    assert EntriesBytes([e]) == EntryBytes(e) + [];
  }

  lemma NothingIsSmall()
    ensures Small([], 0)
  {
  }

  lemma {:induction false} CellChangesSmall(row: u16, cur: seq<CellData>, prev: seq<CellData>, col: nat)
    requires |cur| == |prev| <= 0x1_0000 && col <= |cur| && AllSingle(cur)
    ensures Small(CellChanges(row, cur, prev, col), |cur| - col)
    decreases |cur| - col
  {
    hide Small, CellBytes, StringFits;
    if col == |cur| {
      NothingIsSmall();
    } else {
      CellChangesSmall(row, cur, prev, col + 1);
      SingleCellBytes(cur[col]);
      SmallOne(CellChange(col, row, cur[col]), 1);
      SmallConcat([CellChange(col, row, cur[col])], CellChanges(row, cur, prev, col + 1), 1, |cur| - col - 1);
      if cur[col] == prev[col] {
        SmallGrows(CellChanges(row, cur, prev, col + 1), |cur| - col - 1);
        assert [] + CellChanges(row, cur, prev, col + 1) == CellChanges(row, cur, prev, col + 1);
      }
    }
  }

  lemma SmallGrows(es: seq<DiffEntry>, n: nat)
    requires Small(es, n)
    ensures Small(es, n + 1)
  {
    hide EntriesBytes, EntryFits;
  }

  lemma RowDiffSmall(row: u16, cur: seq<CellData>, prev: seq<CellData>)
    requires |cur| == |prev| < 0x1_0000 && AllSingle(cur)
    ensures Small(RowDiff(row, cur, prev), |cur|)
  {
    hide Small, CellBytes, StringFits, CellsBytes, CellChanges, CountChanged;
    SingleCellsBytes(cur);
    CellChangesSmall(row, cur, prev, 0);
    if CountChanged(cur, prev) == 0 {
      EmptySmall(|cur|);
    } else {
      LineIsSmall(row, cur);
    }
  }

  lemma EmptySmall(n: nat)
    ensures Small([], n)
  {
  }

  lemma LineIsSmall(row: u16, cells: seq<CellData>)
    requires 0 < |cells| < 0x1_0000 && StringsFit(cells) && |CellsBytes(cells)| <= 17 * |cells|
    ensures Small([LineChange(row, cells)], |cells|)
  {
    hide Small, CellsBytes, StringFits;
    assert |EntryBytes(LineChange(row, cells))| == 5 + |CellsBytes(cells)|;
    SmallOne(LineChange(row, cells), |cells|);
  }

  lemma RowIsSingle(f: Frame, row: nat)
    requires f.Valid() && row < f.rows && AllSingle(f.cells)
    ensures AllSingle(f.Row(row))
  {
    hide RowStart;
    RowInside(row, f.rows, f.cols);
  }

  lemma {:induction false} RowDiffsSmall(prev: Frame, cur: Frame, row: nat)
    requires prev.Valid() && cur.Valid() && prev.cols == cur.cols && prev.rows == cur.rows && row <= cur.rows
    requires AllSingle(cur.cells)
    ensures Small(RowDiffs(prev, cur, row), RowStart(cur.rows as int - row, cur.cols))
    decreases cur.rows as int - row
  {
    hide Small, RowDiff, Frame.Row, AllSingle, RowStart;
    if row == cur.rows {
      EmptySmall(RowStart(0, cur.cols));
    } else {
      RowIsSingle(cur, row);
      RowDiffSmall(row, cur.Row(row), prev.Row(row));
      RowDiffsSmall(prev, cur, row + 1);
      var left: nat := cur.rows as int - row - 1;
      SmallConcat(RowDiff(row, cur.Row(row), prev.Row(row)), RowDiffs(prev, cur, row + 1), cur.cols,
        RowStart(left, cur.cols));
      NextRowStart(left, cur.cols);
    }
  }

  /** The diff between two screens of at most 65535 cells can always be sent. */
  lemma DiffSendable(pane: u32, prev: Frame, cur: Frame)
    requires prev.Valid() && cur.Valid() && prev.cols == cur.cols && prev.rows == cur.rows
    requires AllSingle(cur.cells) && |cur.cells| <= MAX_CELLS
    ensures C.ServerSendable(FrameDiff(pane, ComputeDiff(prev, cur)))
  {
    hide RowDiffs, EntriesBytes, EntryFits;
    RowDiffsSmall(prev, cur, 0);
  }

  lemma RowOfCell(i: nat, rows: nat, cols: nat) returns (r: nat, c: nat)
    requires i < RowStart(rows, cols)
    ensures r < rows && c < cols && i == RowStart(r, cols) + c
  {
    if i < cols {
      r, c := 0, i;
    } else {
      NextRowStart(rows - 1, cols);
      r, c := RowOfCell(i - cols, rows - 1, cols);
      NextRowStart(r, cols);
      r := r + 1;
    }
  }

  lemma ShowableIsSingle(f: Frame, width: char -> Width)
    requires f.Valid() && ShowableFrame(f, width)
    ensures AllSingle(f.cells)
  {
    hide RowStart;
    forall i | 0 <= i < |f.cells| ensures |f.cells[i].grapheme| == 1 {
      var r, c := RowOfCell(i, f.rows, f.cols);
      RowInside(r, f.rows, f.cols);
      assert ShowableAt(f.Row(r), c, width);
      assert f.Row(r)[c] == f.cells[i];
    }
  }

  /** A whole screen of such cells can be sent exactly when it has at most 65535 of them. */
  lemma FullFrameSendableIff(pane: u32, f: Frame)
    requires f.Valid() && AllSingle(f.cells)
    ensures C.ServerSendable(FullFrame(pane, f.cols, f.rows, f.cells)) <==> |f.cells| <= MAX_CELLS
  {
    hide StringFits, CellsBytes, U32, RowStart;
    SingleCellsBytes(f.cells);
    FourBytes(pane);
    assert |ServerBytes(FullFrame(pane, f.cols, f.rows, f.cells))| == 11 + |CellsBytes(f.cells)|;
  }

  lemma FourBytes(v: u32)
    ensures |U32(v)| == 4
  {
  }

  // -------------------------------------------------------------------------
  // The whole way
  // -------------------------------------------------------------------------

  /** What the server sends while its screen goes through the frames. */
  function DiffMessages(pane: u32, shown: Frame, frames: seq<Frame>): (ms: seq<ServerMessage>)
    requires shown.Valid() && SameSize(frames, shown.cols, shown.rows)
    ensures |ms| == |frames|
    decreases frames
  {
    if frames == [] then []
    else [FrameDiff(pane, ComputeDiff(shown, frames[0]))] + DiffMessages(pane, frames[0], frames[1..])
  }

  function Screencast(pane: u32, first: Frame, frames: seq<Frame>): (ms: seq<ServerMessage>)
    requires first.Valid() && SameSize(frames, first.cols, first.rows)
    ensures ms != []
  {
    [FullFrame(pane, first.cols, first.rows, first.cells)] + DiffMessages(pane, first, frames)
  }

  /** What the client's terminal is after rendering a message. */
  function Show(t: Terminal, m: ServerMessage, width: char -> Width): (r: Terminal)
    requires t.Valid()
    ensures r.Valid()
  {
    match m
    case FullFrame(_, cols, rows, cells) =>
      if Frame(cols, rows, cells).Valid() then Feed(t, Bytes(RenderFullFrame(Frame(cols, rows, cells))), width) else t
    case FrameDiff(_, diffs) => Feed(t, Bytes(RenderDiff(diffs)), width)
    case _ => t
  }

  function ShowAll(t: Terminal, ms: seq<ServerMessage>, width: char -> Width): Terminal
    requires t.Valid()
    decreases ms
  {
    if ms == [] then t else ShowAll(Show(t, ms[0], width), ms[1..], width)
  }

  predicate AllSendable(ms: seq<ServerMessage>) {
    forall i :: 0 <= i < |ms| ==> C.ServerSendable(ms[i])
  }

  lemma {:induction false} DiffsSendable(pane: u32, shown: Frame, frames: seq<Frame>)
    requires shown.Valid() && SameSize(frames, shown.cols, shown.rows) && SingleFrames(frames)
    requires |shown.cells| <= MAX_CELLS
    ensures AllSendable(DiffMessages(pane, shown, frames))
    decreases frames
  {
    hide C.ServerSendable, ComputeDiff, AllSingle;
    if frames != [] {
      DiffSendable(pane, shown, frames[0]);
      DiffsSendable(pane, frames[0], frames[1..]);
    }
  }

  lemma ScreencastSendable(pane: u32, first: Frame, frames: seq<Frame>)
    requires first.Valid() && SameSize(frames, first.cols, first.rows) && |first.cells| <= MAX_CELLS
    requires AllSingle(first.cells) && SingleFrames(frames)
    ensures AllSendable(Screencast(pane, first, frames))
  {
    hide C.ServerSendable, AllSingle;
    FullFrameSendableIff(pane, first);
    DiffsSendable(pane, first, frames);
  }

  lemma {:induction false} DiffsShown(t: Terminal, pane: u32, shown: Frame, frames: seq<Frame>, width: char -> Width)
    requires t.Valid() && shown.Valid() && SameSize(frames, shown.cols, shown.rows)
    ensures ShowAll(t, DiffMessages(pane, shown, frames), width) == FollowDiffs(t, shown, frames, width)
    decreases frames
  {
    hide ComputeDiff, Feed, Bytes, RenderDiff, Terminal.Valid;
    if frames != [] {
      var ms := DiffMessages(pane, shown, frames);
      assert ms[1..] == DiffMessages(pane, frames[0], frames[1..]);
      DiffsShown(Feed(t, Bytes(RenderDiff(ComputeDiff(shown, frames[0]))), width), pane, frames[0], frames[1..], width);
    }
  }

  lemma ScreencastShown(t: Terminal, pane: u32, first: Frame, frames: seq<Frame>, width: char -> Width)
    requires t.Valid() && first.Valid() && SameSize(frames, first.cols, first.rows)
    ensures ShowAll(t, Screencast(pane, first, frames), width)
         == FollowDiffs(Feed(t, Bytes(RenderFullFrame(first)), width), first, frames, width)
  {
    hide ComputeDiff, Feed, Bytes, RenderDiff, RenderFullFrame, FollowDiffs, DiffMessages, Terminal.Valid;
    var ms := Screencast(pane, first, frames);
    assert ms[1..] == DiffMessages(pane, first, frames);
    assert Frame(first.cols, first.rows, first.cells) == first;
    DiffsShown(Show(t, ms[0], width), pane, first, frames, width);
  }

  /** A first frame and any number of later ones, of cells with one scalar each, sent over a
      stream: exactly the messages sent are read, and what follows them is left unread. */
  lemma ScreencastDelivered(pane: u32, first: Frame, frames: seq<Frame>, tail: seq<byte>)
    requires first.Valid() && SameSize(frames, first.cols, first.rows) && |first.cells| <= MAX_CELLS
    requires AllSingle(first.cells) && SingleFrames(frames)
    ensures var ms := Screencast(pane, first, frames);
            AllSendable(ms) && C.ReadServers(C.ServerStream(ms) + tail, |ms|) == Ok((ms, tail))
  {
    hide C.ServerSendable, C.ReadServers, C.ServerStream, Screencast, AllSingle;
    ScreencastSendable(pane, first, frames);
    C.ServerStreamRoundTrip(Screencast(pane, first, frames), tail);
  }

  lemma ShowableFramesAreSingle(frames: seq<Frame>, cols: u16, rows: u16, width: char -> Width)
    requires AllShowable(frames, cols, rows, width)
    ensures SingleFrames(frames)
  {
    hide AllSingle, ShowableFrame;
    forall i | 0 <= i < |frames| ensures AllSingle(frames[i].cells) {
      ShowableIsSingle(frames[i], width);
    }
  }

  lemma NarrowFramesAreShowable(frames: seq<Frame>, cols: u16, rows: u16, width: char -> Width)
    requires NarrowFrames(frames, cols, rows, width)
    ensures AllShowable(frames, cols, rows, width)
  {
    hide NarrowFrame, ShowableFrame;
    forall i | 0 <= i < |frames| ensures ShowableFrame(frames[i], width) {
      NarrowFrameIsShowable(frames[i], width);
    }
  }

  /** Sent over a stream and rendered by a client whose terminal has their size, frames of narrow
      cells arrive: the client reads exactly the messages sent, whatever follows them is left
      unread, and the terminal shows the last frame. */
  lemma ScreencastArrives(t: Terminal, pane: u32, first: Frame, frames: seq<Frame>, tail: seq<byte>,
          width: char -> Width)
    requires t.Valid() && t.parser.Idle() && Host(t.state, t.state.grid.cursor.style) && AllPaired(t.state.grid.visible)
    requires first.Valid() && first.cols == t.state.grid.cols && first.rows == t.state.grid.rows
             && NarrowFrame(first, width)
    requires NarrowFrames(frames, first.cols, first.rows, width) && |first.cells| <= MAX_CELLS
    ensures var ms := Screencast(pane, first, frames);
            && AllSendable(ms) && C.ReadServers(C.ServerStream(ms) + tail, |ms|) == Ok((ms, tail))
            && InSync(ShowAll(t, ms, width), if frames == [] then first else frames[|frames| - 1])
  {
    hide Feed, Bytes, RenderFullFrame, FollowDiffs, Shows, NarrowFrame, ShowableFrame, AllSingle, C.ServerSendable,
      C.ReadServers, C.ServerStream, Screencast, ShowAll, Host;
    NarrowFrameIsShowable(first, width);
    NarrowFramesAreShowable(frames, first.cols, first.rows, width);
    ShowableIsSingle(first, width);
    ShowableFramesAreSingle(frames, first.cols, first.rows, width);
    ScreencastDelivered(pane, first, frames, tail);
    FullFrameLoop(t, first, width);
    SessionStaysInSync(Feed(t, Bytes(RenderFullFrame(first)), width), first, frames, width);
    ScreencastShown(t, pane, first, frames, width);
  }

  /** With wide characters the messages arrive all the same, and the terminal shows each frame in
      turn exactly when every diff is safe; then it shows the last one. */
  lemma WideScreencastArrives(t: Terminal, pane: u32, first: Frame, frames: seq<Frame>, tail: seq<byte>,
          width: char -> Width)
    requires t.Valid() && t.parser.Idle() && Host(t.state, t.state.grid.cursor.style) && AllPaired(t.state.grid.visible)
    requires first.Valid() && first.cols == t.state.grid.cols && first.rows == t.state.grid.rows
    requires ShowableFrame(first, width) && AllShowable(frames, first.cols, first.rows, width) && width(' ') == 1
    requires |first.cells| <= MAX_CELLS
    ensures var ms := Screencast(pane, first, frames);
            AllSendable(ms) && C.ReadServers(C.ServerStream(ms) + tail, |ms|) == Ok((ms, tail))
    ensures KeepsInStep(Feed(t, Bytes(RenderFullFrame(first)), width), first, frames, width)
            <==> SafeSession(first, frames)
    ensures SafeSession(first, frames) ==>
              InSync(ShowAll(t, Screencast(pane, first, frames), width),
                     if frames == [] then first else frames[|frames| - 1])
  {
    hide Feed, Bytes, RenderFullFrame, FollowDiffs, Shows, ShowableFrame, AllSingle, C.ServerSendable,
      C.ReadServers, C.ServerStream, Screencast, ShowAll, Host, KeepsInStep, SafeSession;
    ShowableIsSingle(first, width);
    ShowableFramesAreSingle(frames, first.cols, first.rows, width);
    ScreencastDelivered(pane, first, frames, tail);
    FullFrameLoop(t, first, width);
    var t1 := Feed(t, Bytes(RenderFullFrame(first)), width);
    SessionKeepsInStepIff(t1, first, frames, width);
    ScreencastShown(t, pane, first, frames, width);
    if SafeSession(first, frames) {
      InStepShowsLast(t1, first, frames, width);
    }
  }
}
