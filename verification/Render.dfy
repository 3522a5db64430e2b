/** The renderer on values: the control sequences and text it emits for frames and diffs,
    with the style cache that leaves out what the host already has. */
module Render {
  import opened Common
  import opened AttrNumbers
  import opened Styles
  import opened Protocol
  import P = Params
  import PP = ParserProperties
  import Utf8

  /** A piece of output: a control sequence without intermediates, or text. */
  datatype Token = Control(private: bool, params: seq<nat>, final: byte) | Text(text: string)

  function TokenBytes(t: Token): seq<byte> {
    match t
    case Control(private, params, final) => PP.CsiBytes(private, P.Join(params), final)
    case Text(text) => Utf8.Encode(text)
  }

  function Bytes(ts: seq<Token>): seq<byte> {
    if ts == [] then [] else TokenBytes(ts[0]) + Bytes(ts[1..])
  }

  lemma {:induction false} BytesConcat(a: seq<Token>, b: seq<Token>)
    ensures Bytes(a + b) == Bytes(a) + Bytes(b)
  {
    hide TokenBytes;
    if a == [] {
      assert a + b == b;
    } else {
      assert (a + b)[1..] == a[1..] + b;
      BytesConcat(a[1..], b);
    }
  }

  lemma BytesOne(t: Token)
    ensures Bytes([t]) == TokenBytes(t)
  {
    hide TokenBytes;
    assert [t][1..] == [];
    assert TokenBytes(t) + [] == TokenBytes(t);
  }

  const SM: byte := 'h' as int
  const RM: byte := 'l' as int
  const CUP: byte := 'H' as int
  const SGR: byte := 'm' as int

  const SYNC_START: Token := Control(true, [2026], SM)
  const SYNC_END: Token := Control(true, [2026], RM)
  const SGR_RESET: Token := Control(false, [0], SGR)

  function Cup(col: nat, row: nat): Token {
    Control(false, [row + 1, col + 1], CUP)
  }

  // -------------------------------------------------------------------------
  // The style cache
  // -------------------------------------------------------------------------

  datatype RenderedStyle = RenderedStyle(fg: ColorData, bg: ColorData, attrs: Attrs)

  const NO_STYLE: RenderedStyle := RenderedStyle(DefaultColor, DefaultColor, 0)

  function StyleOf(c: CellData): RenderedStyle {
    RenderedStyle(c.fg, c.bg, AttrsOf(c.attrs))
  }

  /** The attribute bits the renderer has codes for. */
  const MAPPED: Attrs := 0x1FF

  /** The attributes sent as this number all have codes. */
  predicate Coded(attrs: u16) {
    attrs < 0x200
  }

  /** Attribute bits and their SGR codes, in the order they are emitted. */
  const ATTR_MAP: seq<(Attrs, nat)> :=
    [(BOLD, 1), (DIM, 2), (ITALIC, 3), (UNDERLINE, 4), (BLINK, 5), (INVERSE, 7), (HIDDEN, 8), (STRIKETHROUGH, 9),
     (CURLY_UNDERLINE, 21)]

  function AttrTokens(added: Attrs, map_: seq<(Attrs, nat)>): seq<Token> {
    if map_ == [] then []
    else (if HasBit(added, map_[0].0) then [Control(false, [map_[0].1], SGR)] else []) + AttrTokens(added, map_[1..])
  }

  function ColorToken(c: ColorData, base: nat): Token {
    match c
    case DefaultColor => Control(false, [base + 9], SGR)
    case IndexedColor(i) => Control(false, [base + 8, 5, i], SGR)
    case RgbColor(r, g, b) => Control(false, [base + 8, 2, r, g, b], SGR)
  }

  const FOREGROUND: nat := 30
  const BACKGROUND: nat := 40

  /** Everything about a style, for a host that has none. */
  function FullTokens(target: RenderedStyle): seq<Token> {
    AttrTokens(target.attrs, ATTR_MAP) + [ColorToken(target.fg, FOREGROUND)] + [ColorToken(target.bg, BACKGROUND)]
  }

  /** Only what differs, when no attribute has to be cleared. */
  function ChangedTokens(last: RenderedStyle, target: RenderedStyle): seq<Token> {
    AttrTokens(Without(target.attrs, last.attrs), ATTR_MAP)
    + (if target.fg != last.fg then [ColorToken(target.fg, FOREGROUND)] else [])
    + (if target.bg != last.bg then [ColorToken(target.bg, BACKGROUND)] else [])
  }

  /** What is emitted to take the host from one style to another. */
  function EmitSgr(last: RenderedStyle, target: RenderedStyle): seq<Token> {
    if last == target then []
    else if Without(last.attrs, target.attrs) != 0 then [SGR_RESET] + FullTokens(target)
    else ChangedTokens(last, target)
  }

  /** The same without a cache. */
  function EmitNaively(target: RenderedStyle): seq<Token> {
    [SGR_RESET] + FullTokens(target)
  }

  // -------------------------------------------------------------------------
  // Cells, rows and frames
  // -------------------------------------------------------------------------

  /** The cells of a row from `col` on, each preceded by its position when `positioned`.
      Continuation cells are skipped. */
  function RowTokens(cells: seq<CellData>, row: nat, col: nat, last: RenderedStyle, positioned: bool)
    : (seq<Token>, RenderedStyle)
    requires col <= |cells|
    decreases |cells| - col
  {
    if col == |cells| then ([], last)
    else if IsContinuationData(cells[col]) then RowTokens(cells, row, col + 1, last, positioned)
    else
      var style := StyleOf(cells[col]);
      var here := (if positioned then [Cup(col, row)] else []) + EmitSgr(last, style) + [Text(cells[col].grapheme)];
      var (rest, end) := RowTokens(cells, row, col + 1, style, positioned);
      (here + rest, end)
  }

  function FrameTokens(f: Frame, row: nat, last: RenderedStyle): seq<Token>
    requires f.Valid() && row <= f.rows
    decreases f.rows as int - row
  {
    if row == f.rows then []
    else
      var (here, style) := RowTokens(f.Row(row), row, 0, last, true);
      here + FrameTokens(f, row + 1, style)
  }

  function RenderFullFrame(f: Frame): seq<Token>
    requires f.Valid()
  {
    [SYNC_START, SGR_RESET] + FrameTokens(f, 0, NO_STYLE) + [SGR_RESET, SYNC_END]
  }

  // -------------------------------------------------------------------------
  // Diffs
  // -------------------------------------------------------------------------

  function EntryTokens(e: DiffEntry, last: RenderedStyle): (seq<Token>, RenderedStyle) {
    match e
    case CellChange(col, row, cell) =>
      ([Cup(col, row)] + EmitSgr(last, StyleOf(cell)) + [Text(cell.grapheme)], StyleOf(cell))
    case LineChange(row, cells) =>
      var (tokens, style) := RowTokens(cells, row, 0, last, false);
      ([Cup(0, row)] + tokens, style)
    case RegionScroll(top, bottom, count) =>
      ([Control(false, [top as int + 1, bottom as int + 1], 'r' as int)]
       + (if count > 0 then [Control(false, [count], 'S' as int)]
          else if count < 0 then [Control(false, [-(count as int)], 'T' as int)]
          else []),
       last)
  }

  function DiffTokens(es: seq<DiffEntry>, last: RenderedStyle): seq<Token>
    decreases es
  {
    if es == [] then []
    else
      var (here, style) := EntryTokens(es[0], last);
      here + DiffTokens(es[1..], style)
  }

  function RenderDiff(es: seq<DiffEntry>): seq<Token> {
    [SYNC_START] + DiffTokens(es, NO_STYLE) + [SGR_RESET, SYNC_END]
  }
}

/** The renderer as an object: a byte buffer and the style the host is known to have. */
module RenderObject {
  import opened Common
  import opened Styles
  import opened Protocol
  import opened Render

  class TerminalRenderer {
    var buf: seq<byte>
    var lastStyle: RenderedStyle

    constructor ()
      ensures buf == [] && lastStyle == NO_STYLE
    {
      buf := [];
      lastStyle := NO_STYLE;
    }

    method Emit(t: Token)
      modifies this`buf
      ensures buf == old(buf) + Bytes([t])
    {
      BytesOne(t);
      buf := buf + TokenBytes(t);
    }

    method EmitText(text: string)
      modifies this`buf
      ensures buf == old(buf) + Bytes([Text(text)])
    {
      Emit(Text(text));
    }

    method EmitCup(col: nat, row: nat)
      modifies this`buf
      ensures buf == old(buf) + Bytes([Cup(col, row)])
    {
      Emit(Cup(col, row));
    }

    /** One code for each added attribute of the map. */
    method EmitAttrs(added: Attrs, map_: seq<(Attrs, nat)>)
      modifies this`buf
      ensures buf == old(buf) + Bytes(AttrTokens(added, map_))
    {
      hide TokenBytes, Bytes;
      ghost var start := buf;
      assert map_[0..] == map_;
      for i := 0 to |map_|
        invariant buf + Bytes(AttrTokens(added, map_[i..])) == start + Bytes(AttrTokens(added, map_))
      {
        var (bit, code) := map_[i];
        ghost var rest := AttrTokens(added, map_[i + 1..]);
        assert map_[i..][1..] == map_[i + 1..];
        if HasBit(added, bit) {
          BytesConcat([Control(false, [code], SGR)], rest);
          ghost var before := buf;
          Emit(Control(false, [code], SGR));
          assert before + (Bytes([Control(false, [code], SGR)]) + Bytes(rest)) == buf + Bytes(rest);
        } else {
          assert [] + rest == rest;
        }
      }
      NoBytes();
      assert map_[|map_|..] == [];
      assert buf + [] == buf;
    }

    method EmitAttrsAdded(added: Attrs)
      modifies this`buf
      ensures buf == old(buf) + Bytes(AttrTokens(added, ATTR_MAP))
    {
      if added == 0 {
        NoAttrTokens(ATTR_MAP);
        assert buf + [] == buf;
        return;
      }
      hide *;
      EmitAttrs(added, ATTR_MAP);
    }

    method EmitSgrFull(target: RenderedStyle)
      modifies this`buf
      ensures buf == old(buf) + Bytes(FullTokens(target))
    {
      hide Bytes, TokenBytes, AttrTokens, ColorToken;
      ghost var start, attrs := buf, AttrTokens(target.attrs, ATTR_MAP);
      EmitAttrsAdded(target.attrs);
      Emit(ColorToken(target.fg, FOREGROUND));
      Append(start, attrs, [ColorToken(target.fg, FOREGROUND)]);
      Emit(ColorToken(target.bg, BACKGROUND));
      Append(start, attrs + [ColorToken(target.fg, FOREGROUND)], [ColorToken(target.bg, BACKGROUND)]);
    }

    method EmitSgrChanged(last: RenderedStyle, target: RenderedStyle)
      modifies this`buf
      ensures buf == old(buf) + Bytes(ChangedTokens(last, target))
    {
      hide Bytes, TokenBytes, AttrTokens, ColorToken;
      ghost var start, attrs := buf, AttrTokens(Without(target.attrs, last.attrs), ATTR_MAP);
      ghost var fg := if target.fg != last.fg then [ColorToken(target.fg, FOREGROUND)] else [];
      ghost var bg := if target.bg != last.bg then [ColorToken(target.bg, BACKGROUND)] else [];
      EmitAttrsAdded(Without(target.attrs, last.attrs));
      NoBytes();
      if target.fg != last.fg {
        Emit(ColorToken(target.fg, FOREGROUND));
      }
      assert buf == start + Bytes(attrs) + Bytes(fg);
      Append(start, attrs, fg);
      if target.bg != last.bg {
        Emit(ColorToken(target.bg, BACKGROUND));
      }
      assert buf == start + Bytes(attrs + fg) + Bytes(bg);
      Append(start, attrs + fg, bg);
    }

    /** Emit what the host does not have yet, and remember it. */
    method EmitSgr(cell: CellData)
      modifies this
      ensures buf == old(buf) + Bytes(Render.EmitSgr(old(lastStyle), StyleOf(cell)))
      ensures lastStyle == StyleOf(cell)
    {
      hide Bytes, TokenBytes, FullTokens, ChangedTokens;
      var target := StyleOf(cell);
      var last := lastStyle;
      lastStyle := target;
      if target == last {
        NoBytes();
        assert buf + [] == buf;
        return;
      }
      if Without(last.attrs, target.attrs) != 0 {
        ghost var start := buf;
        Emit(SGR_RESET);
        EmitSgrFull(target);
        Append(start, [SGR_RESET], FullTokens(target));
      } else {
        EmitSgrChanged(last, target);
      }
    }

    method RenderRow(cells: seq<CellData>, row: nat, positioned: bool)
      modifies this
      ensures buf == old(buf) + Bytes(RowTokens(cells, row, 0, old(lastStyle), positioned).0)
      ensures lastStyle == RowTokens(cells, row, 0, old(lastStyle), positioned).1
    {
      hide Bytes, TokenBytes, Render.EmitSgr;
      ghost var start, style := buf, lastStyle;
      ghost var done: seq<Token> := [];
      NoBytes();
      assert start + [] == start;
      for col := 0 to |cells|
        invariant buf == start + Bytes(done)
        invariant done + RowTokens(cells, row, col, lastStyle, positioned).0
               == RowTokens(cells, row, 0, style, positioned).0
        invariant RowTokens(cells, row, col, lastStyle, positioned).1
               == RowTokens(cells, row, 0, style, positioned).1
      {
        if IsContinuationData(cells[col]) {
          continue;
        }
        ghost var cup := if positioned then [Cup(col, row)] else [];
        ghost var sgr := Render.EmitSgr(lastStyle, StyleOf(cells[col]));
        ghost var rest := RowTokens(cells, row, col + 1, StyleOf(cells[col]), positioned).0;
        if positioned {
          EmitCup(col, row);
          Append(start, done, cup);
        } else {
          assert done + [] == done;
        }
        EmitSgr(cells[col]);
        Append(start, done + cup, sgr);
        EmitText(cells[col].grapheme);
        Append(start, done + cup + sgr, [Text(cells[col].grapheme)]);
        Regroup(done, cup, sgr, [Text(cells[col].grapheme)], rest);
        done := done + cup + sgr + [Text(cells[col].grapheme)];
      }
      assert done + [] == done;
    }

    method RenderFullFrame(f: Frame) returns (out: seq<byte>)
      requires f.Valid()
      modifies this
      ensures out == Bytes(Render.RenderFullFrame(f)) && lastStyle == NO_STYLE
    {
      hide Bytes, TokenBytes, RowTokens;
      NoBytes();
      buf := [];
      lastStyle := NO_STYLE;
      Emit(SYNC_START);
      Emit(SGR_RESET);
      Append([], [SYNC_START], [SGR_RESET]);
      ghost var done := [SYNC_START, SGR_RESET];
      assert [SYNC_START] + [SGR_RESET] == done;
      for row := 0 to f.rows as int
        invariant buf == Bytes(done)
        invariant done + FrameTokens(f, row, lastStyle) == [SYNC_START, SGR_RESET] + FrameTokens(f, 0, NO_STYLE)
      {
        ghost var (here, style) := RowTokens(f.Row(row), row, 0, lastStyle, true);
        ghost var rest := FrameTokens(f, row + 1, style);
        RenderRow(f.Row(row), row, true);
        Append([], done, here);
        assert [] + Bytes(done + here) == Bytes(done + here) && [] + Bytes(done) == Bytes(done);
        assert done + (here + rest) == (done + here) + rest;
        done := done + here;
      }
      assert done + [] == done;
      Finish(done);
      out := buf;
    }

    /** Leave the host in a clean state. */
    method Finish(ghost done: seq<Token>)
      requires buf == Bytes(done)
      modifies this
      ensures buf == Bytes(done + [SGR_RESET, SYNC_END]) && lastStyle == NO_STYLE
    {
      hide Bytes, TokenBytes;
      Emit(SGR_RESET);
      BytesConcat(done, [SGR_RESET]);
      lastStyle := NO_STYLE;
      Emit(SYNC_END);
      BytesConcat(done + [SGR_RESET], [SYNC_END]);
      assert done + [SGR_RESET] + [SYNC_END] == done + [SGR_RESET, SYNC_END];
    }

    method RenderEntry(e: DiffEntry)
      modifies this
      ensures buf == old(buf) + Bytes(EntryTokens(e, old(lastStyle)).0)
      ensures lastStyle == EntryTokens(e, old(lastStyle)).1
    {
      hide Bytes, TokenBytes, RowTokens, Render.EmitSgr;
      ghost var start, last := buf, lastStyle;
      match e {
        case CellChange(col, row, cell) =>
          EmitCup(col, row);
          EmitSgr(cell);
          Append(start, [Cup(col, row)], Render.EmitSgr(last, StyleOf(cell)));
          EmitText(cell.grapheme);
          Append(start, [Cup(col, row)] + Render.EmitSgr(last, StyleOf(cell)), [Text(cell.grapheme)]);
        case LineChange(row, cells) =>
          EmitCup(0, row);
          RenderRow(cells, row, false);
          Append(start, [Cup(0, row)], RowTokens(cells, row, 0, last, false).0);
        case RegionScroll(top, bottom, count) =>
          ghost var region := [Control(false, [top as int + 1, bottom as int + 1], 'r' as int)];
          Emit(Control(false, [top as int + 1, bottom as int + 1], 'r' as int));
          if count > 0 {
            Emit(Control(false, [count], 'S' as int));
            Append(start, region, [Control(false, [count], 'S' as int)]);
          } else if count < 0 {
            Emit(Control(false, [-(count as int)], 'T' as int));
            Append(start, region, [Control(false, [-(count as int)], 'T' as int)]);
          } else {
            assert region + [] == region;
          }
      }
    }

    method RenderDiff(es: seq<DiffEntry>) returns (out: seq<byte>)
      modifies this
      ensures out == Bytes(Render.RenderDiff(es)) && lastStyle == NO_STYLE
    {
      hide Bytes, TokenBytes, EntryTokens;
      NoBytes();
      buf := [];
      lastStyle := NO_STYLE;
      Emit(SYNC_START);
      ghost var done := [SYNC_START];
      assert es[0..] == es;
      for i := 0 to |es|
        invariant buf == Bytes(done)
        invariant done + DiffTokens(es[i..], lastStyle) == [SYNC_START] + DiffTokens(es, NO_STYLE)
      {
        ghost var (here, style) := EntryTokens(es[i], lastStyle);
        ghost var rest := DiffTokens(es[i + 1..], style);
        assert es[i..][1..] == es[i + 1..];
        RenderEntry(es[i]);
        BytesConcat(done, here);
        assert done + (here + rest) == (done + here) + rest;
        done := done + here;
      }
      assert done + [] == done;
      Finish(done);
      out := buf;
    }
  }

  lemma NoBytes()
    ensures Bytes([]) == []
  {
  }

  lemma Regroup(done: seq<Token>, cup: seq<Token>, sgr: seq<Token>, text: seq<Token>, rest: seq<Token>)
    ensures done + ((cup + sgr + text) + rest) == (done + cup + sgr + text) + rest
  {
  }

  lemma Append(start: seq<byte>, done: seq<Token>, more: seq<Token>)
    ensures start + Bytes(done) + Bytes(more) == start + Bytes(done + more)
  {
    hide *;
    BytesConcat(done, more);
  }

  lemma {:induction false} NoAttrTokens(map_: seq<(Attrs, nat)>)
    ensures AttrTokens(0, map_) == []
  {
    if map_ != [] {
      NoAttrTokens(map_[1..]);
      assert !HasBit(0, map_[0].0);
    }
  }
}
