/** A frame is shown whole or not at all: however its bytes are cut, the terminal has seen nothing
    of it, holds its output back, or has seen everything. */
module AtomicFrames {
  import opened Common
  import opened Styles
  import opened Protocol
  import opened Grids
  import opened Parser
  import opened Terminals
  import opened Render
  import opened RenderParsing
  import P = Params
  import PP = ParserProperties

  // -------------------------------------------------------------------------
  // What is between the two ends
  // -------------------------------------------------------------------------

  /** A token that sets no mode and that the parser can take back. */
  predicate IsContent(t: Token) {
    Readable(t) && (t.Control? ==> !t.private)
  }

  predicate AllContent(ts: seq<Token>) {
    forall i :: 0 <= i < |ts| ==> IsContent(ts[i])
  }

  predicate PrintableCells(cells: seq<CellData>) {
    forall i :: 0 <= i < |cells| ==> PP.AllPrintable(cells[i].grapheme)
  }

  predicate PrintableFrame(f: Frame)
    requires f.Valid()
  {
    PrintableCells(f.cells)
  }

  predicate PrintableEntries(es: seq<DiffEntry>) {
    forall i :: 0 <= i < |es| ==> match es[i]
                                  case CellChange(_, _, cell) => PP.AllPrintable(cell.grapheme)
                                  case LineChange(_, cells) => PrintableCells(cells)
                                  case RegionScroll(_, _, _) => true
  }

  lemma ResetContent() returns (reset: seq<Token>)
    ensures reset == [SGR_RESET] && AllContent(reset)
  {
    reset := [SGR_RESET];
  }

  lemma ContentConcat(a: seq<Token>, b: seq<Token>)
    requires AllContent(a) && AllContent(b)
    ensures AllContent(a + b)
  {
  }

  lemma {:induction false} AttrContent(added: Attrs, map_: seq<(Attrs, nat)>)
    ensures AllContent(AttrTokens(added, map_))
    decreases map_
  {
    if map_ != [] {
      AttrContent(added, map_[1..]);
    }
  }

  lemma ColorContent(c: ColorData, base: nat)
    ensures AllContent([ColorToken(c, base)]) && AllContent([SGR_RESET])
  {
  }

  lemma FullContent(target: RenderedStyle)
    ensures AllContent(FullTokens(target))
  {
    hide AttrTokens, ColorToken, IsContent, AllContent;
    AttrContent(target.attrs, ATTR_MAP);
    ColorContent(target.fg, FOREGROUND);
    ColorContent(target.bg, BACKGROUND);
    ContentConcat(AttrTokens(target.attrs, ATTR_MAP), [ColorToken(target.fg, FOREGROUND)]);
    ContentConcat(AttrTokens(target.attrs, ATTR_MAP) + [ColorToken(target.fg, FOREGROUND)],
      [ColorToken(target.bg, BACKGROUND)]);
  }

  lemma ChangedContent(last: RenderedStyle, target: RenderedStyle)
    ensures AllContent(ChangedTokens(last, target))
  {
    hide AttrTokens, ColorToken, IsContent, Without;
    AttrContent(Without(target.attrs, last.attrs), ATTR_MAP);
    ColorContent(target.fg, FOREGROUND);
    ColorContent(target.bg, BACKGROUND);
  }

  lemma StyleContent(last: RenderedStyle, target: RenderedStyle)
    ensures AllContent(EmitSgr(last, target))
  {
    hide FullTokens, ChangedTokens, IsContent, Without;
    FullContent(target);
    ChangedContent(last, target);
    ColorContent(target.fg, FOREGROUND);
  }

  lemma CellContent(row: nat, col: nat, positioned: bool, last: RenderedStyle, cell: CellData)
    requires PP.AllPrintable(cell.grapheme)
    ensures AllContent((if positioned then [Cup(col, row)] else []) + EmitSgr(last, StyleOf(cell))
                       + [Text(cell.grapheme)])
  {
    hide EmitSgr;
    StyleContent(last, StyleOf(cell));
  }

  lemma {:induction false} RowContent(cells: seq<CellData>, row: nat, col: nat, last: RenderedStyle, positioned: bool)
    requires PrintableCells(cells) && col <= |cells|
    ensures AllContent(RowTokens(cells, row, col, last, positioned).0)
    decreases |cells| - col
  {
    hide EmitSgr, IsContent;
    if col < |cells| {
      if IsContinuationData(cells[col]) {
        RowContent(cells, row, col + 1, last, positioned);
      } else {
        RowContent(cells, row, col + 1, StyleOf(cells[col]), positioned);
        CellContent(row, col, positioned, last, cells[col]);
      }
    }
  }

  lemma RowPrintable(f: Frame, row: nat)
    requires f.Valid() && PrintableFrame(f) && row < f.rows
    ensures PrintableCells(f.Row(row))
  {
    hide PrintableCells, RowStart;
    RowInside(row, f.rows, f.cols);
    SlicePrintable(f.cells, RowStart(row, f.cols), RowStart(row, f.cols) + f.cols as int);
  }

  lemma SlicePrintable(cells: seq<CellData>, lo: nat, hi: nat)
    requires PrintableCells(cells) && lo <= hi <= |cells|
    ensures PrintableCells(cells[lo..hi])
  {
    hide PP.AllPrintable;
  }

  lemma {:induction false} FrameContent(f: Frame, row: nat, last: RenderedStyle)
    requires f.Valid() && PrintableFrame(f) && row <= f.rows
    ensures AllContent(FrameTokens(f, row, last))
    decreases f.rows as int - row
  {
    hide IsContent, RowTokens, Frame.Row, PrintableCells;
    if row < f.rows {
      RowPrintable(f, row);
      RowContent(f.Row(row), row, 0, last, true);
      FrameContent(f, row + 1, RowTokens(f.Row(row), row, 0, last, true).1);
    }
  }

  lemma EntryContent(e: DiffEntry, last: RenderedStyle)
    requires PrintableEntries([e])
    ensures AllContent(EntryTokens(e, last).0)
  {
    hide EmitSgr, RowTokens;
    assert e == [e][0];
    match e
    case CellChange(col, row, cell) => CellContent(row, col, true, last, cell);
    case LineChange(row, cells) => RowContent(cells, row, 0, last, false);
    case RegionScroll(_, _, _) =>
  }

  lemma {:induction false} DiffContent(es: seq<DiffEntry>, last: RenderedStyle)
    requires PrintableEntries(es)
    ensures AllContent(DiffTokens(es, last))
    decreases es
  {
    hide IsContent, EntryTokens;
    if es != [] {
      assert PrintableEntries([es[0]]);
      EntryContent(es[0], last);
      DiffContent(es[1..], EntryTokens(es[0], last).1);
    }
  }

  // -------------------------------------------------------------------------
  // Cutting the output
  // -------------------------------------------------------------------------

  /** The event sets no mode. */
  predicate KeepsModes(e: Event) {
    e.Printed? || (e.Csi? && QUESTION_MARK !in e.intermediates)
  }

  predicate AllKeepModes(es: seq<Event>) {
    forall i :: 0 <= i < |es| ==> KeepsModes(es[i])
  }

  lemma {:induction false} ContentKeepsModes(ts: seq<Token>)
    requires AllContent(ts)
    ensures AllReadable(ts) && AllKeepModes(Events(ts))
    decreases ts
  {
    if ts != [] {
      assert IsContent(ts[0]);
      assert AllKeepModes(EventsOf(ts[0]));
      ContentKeepsModes(ts[1..]);
    }
  }

  lemma EventKeepsModes(t: TerminalState, e: Event, width: char -> Width)
    requires t.Valid() && KeepsModes(e)
    ensures Handle(t, e, width).modes == t.modes
  {
    hide WriteChar, Dispatch;
  }

  lemma {:induction false} EventsKeepModes(t: TerminalState, es: seq<Event>, width: char -> Width)
    requires t.Valid() && AllKeepModes(es)
    ensures HandleAll(t, es, width).modes == t.modes
    decreases es
  {
    hide Handle, KeepsModes;
    if es != [] {
      EventKeepsModes(t, es[0], width);
      EventsKeepModes(Handle(t, es[0], width), es[1..], width);
    }
  }

  /** The event of the token that sets or resets synchronized output. */
  function SyncEvent(final: byte): Event {
    Csi([2026], [QUESTION_MARK], final)
  }

  lemma SyncEventHandled(t: TerminalState, final: byte, width: char -> Width)
    requires t.Valid() && (final == SM || final == RM)
    ensures SynchronizedOutput in Handle(t, SyncEvent(final), width).modes <==> final == SM
  {
    assert [2026 as u16][1..] == [];
  }

  /** A prefix of the events leaves the terminal as it was, holding back, or done. */
  lemma EventsAreAtomic(t: TerminalState, body: seq<Event>, i: nat, width: char -> Width)
    requires t.Valid() && AllKeepModes(body) && i <= |body| + 2
    ensures var es := [SyncEvent(SM)] + body + [SyncEvent(RM)];
            var r := HandleAll(t, es[..i], width);
            && (i == 0 ==> r == t)
            && (0 < i < |es| ==> SynchronizedOutput in r.modes)
            && (i == |es| ==> r == HandleAll(t, es, width) && SynchronizedOutput !in r.modes)
  {
    hide Handle, HandleAll, KeepsModes;
    var es := [SyncEvent(SM)] + body + [SyncEvent(RM)];
    if i == 0 {
      NothingHandled(t, width);
      assert es[..0] == [];
    } else {
      SyncEventHandled(t, SM, width);
      HandleOne(t, SyncEvent(SM), width);
      var s := Handle(t, SyncEvent(SM), width);
      if i < |es| {
        assert es[..i] == [SyncEvent(SM)] + body[..i - 1];
        HandleAllConcat(t, [SyncEvent(SM)], body[..i - 1], width);
        EventsKeepModes(s, body[..i - 1], width);
      } else {
        assert es[..i] == es;
        HandleAllConcat(t, [SyncEvent(SM)] + body, [SyncEvent(RM)], width);
        var m := HandleAll(t, [SyncEvent(SM)] + body, width);
        HandleOne(m, SyncEvent(RM), width);
        SyncEventHandled(m, RM, width);
      }
    }
  }

  lemma NothingHandled(t: TerminalState, width: char -> Width)
    requires t.Valid()
    ensures HandleAll(t, [], width) == t
  {
  }

  lemma SyncTokens(body: seq<Token>)
    requires AllContent(body)
    ensures var ts := [SYNC_START] + body + [SYNC_END];
            AllReadable(ts) && Events(ts) == [SyncEvent(SM)] + Events(body) + [SyncEvent(RM)]
  {
    ContentKeepsModes(body);
    EventsOne(SYNC_START);
    EventsOne(SYNC_END);
    assert P.SaturateAll([2026]) == [2026];
    hide Events;
    EventsConcat([SYNC_START] + body, [SYNC_END]);
    EventsConcat([SYNC_START], body);
  }

  /** The terminal has seen nothing of the output, holds it back, or has seen all of it and holds
      nothing back. */
  ghost predicate WholeOrNothing(t: Terminal, output: seq<byte>, k: nat, width: char -> Width)
    requires t.Valid() && k <= |output|
  {
    var r, all := Feed(t, output[..k], width).state, Feed(t, output, width).state;
    || r == t.state
    || SynchronizedOutput in r.modes
    || (r == all && SynchronizedOutput !in r.modes)
  }

  lemma OutputIsAtomic(t: Terminal, body: seq<Token>, k: nat, width: char -> Width)
    requires t.Valid() && t.parser.Idle() && AllContent(body)
    requires k <= |Bytes([SYNC_START] + body + [SYNC_END])|
    ensures WholeOrNothing(t, Bytes([SYNC_START] + body + [SYNC_END]), k, width)
  {
    hide Run, HandleAll, Bytes, Events, AllContent, AllKeepModes;
    var ts := [SYNC_START] + body + [SYNC_END];
    var output := Bytes(ts);
    SyncTokens(body);
    ContentKeepsModes(body);
    TokensParse(t.parser, ts);
    var es := Events(ts);
    var (m1, es1) := Run(t.parser, output[..k]);
    var (m2, es2) := Run(m1, output[k..]);
    assert output[..k] + output[k..] == output;
    PP.RunThen(t.parser, output[..k], m1, es1, output[k..], m2, es2);
    assert es == es1 + es2 && es1 == es[..|es1|];
    EventsAreAtomic(t.state, Events(body), |es1|, width);
  }

  /** However the bytes of a full frame are cut into reads, no part of it is shown: the terminal is
      as it was, holds its output back, or has taken in the whole frame. */
  lemma FullFrameIsAtomic(t: Terminal, f: Frame, k: nat, width: char -> Width)
    requires t.Valid() && t.parser.Idle() && f.Valid() && PrintableFrame(f) && k <= |Bytes(RenderFullFrame(f))|
    ensures WholeOrNothing(t, Bytes(RenderFullFrame(f)), k, width)
  {
    hide FrameTokens, Bytes, AllContent, WholeOrNothing;
    FrameContent(f, 0, NO_STYLE);
    var reset := ResetContent();
    var body := reset + FrameTokens(f, 0, NO_STYLE) + reset;
    ContentConcat(reset, FrameTokens(f, 0, NO_STYLE));
    ContentConcat(reset + FrameTokens(f, 0, NO_STYLE), reset);
    assert [SYNC_START] + body + [SYNC_END] == RenderFullFrame(f);
    OutputIsAtomic(t, body, k, width);
  }

  /** The same for any diff. */
  lemma DiffIsAtomic(t: Terminal, es: seq<DiffEntry>, k: nat, width: char -> Width)
    requires t.Valid() && t.parser.Idle() && PrintableEntries(es) && k <= |Bytes(RenderDiff(es))|
    ensures WholeOrNothing(t, Bytes(RenderDiff(es)), k, width)
  {
    hide DiffTokens, Bytes, AllContent, WholeOrNothing;
    DiffContent(es, NO_STYLE);
    var reset := ResetContent();
    var body := DiffTokens(es, NO_STYLE) + reset;
    ContentConcat(DiffTokens(es, NO_STYLE), reset);
    assert [SYNC_START] + body + [SYNC_END] == RenderDiff(es);
    OutputIsAtomic(t, body, k, width);
  }
}
