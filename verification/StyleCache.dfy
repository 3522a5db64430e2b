/** The renderer's style cache: interpreting what it emits gives the host each cell's style,
    exactly when the cell's attributes are ones the renderer has codes for. */
module StyleCache {
  import opened Styles
  import opened Protocol
  import opened Grids
  import opened Terminals
  import opened Render
  import opened RenderParsing
  import opened SgrLaws
  import P = Params

  function HostColor(c: ColorData): Color {
    match c
    case DefaultColor => Default
    case IndexedColor(i) => Indexed(i)
    case RgbColor(r, g, b) => Rgb(r, g, b)
  }

  /** The style a host has when it shows cells with this rendered style. */
  function HostStyle(s: RenderedStyle): Style {
    Style(HostColor(s.fg), HostColor(s.bg), s.attrs)
  }

  predicate IsSgr(t: Token) {
    t.Control? && !t.private && t.final == SGR && |t.params| <= P.MAX_PARAMS
  }

  predicate AllSgr(ts: seq<Token>) {
    forall i :: 0 <= i < |ts| ==> IsSgr(ts[i])
  }

  /** What a host makes of SGR tokens. */
  function Interpret(s: Style, ts: seq<Token>): Style
    requires AllSgr(ts)
    decreases ts
  {
    if ts == [] then s else Interpret(Sgr(s, P.SaturateAll(ts[0].params)), ts[1..])
  }

  lemma {:induction false} InterpretConcat(s: Style, a: seq<Token>, b: seq<Token>)
    requires AllSgr(a) && AllSgr(b)
    ensures AllSgr(a + b) && Interpret(s, a + b) == Interpret(Interpret(s, a), b)
    decreases a
  {
    hide Sgr;
    if a == [] {
      assert a + b == b;
    } else {
      assert (a + b)[1..] == a[1..] + b;
      assert IsSgr(a[0]) && a[0].Control?;
      InterpretConcat(Sgr(s, P.SaturateAll(a[0].params)), a[1..], b);
    }
  }

  lemma InterpretOne(s: Style, t: Token)
    requires IsSgr(t)
    ensures AllSgr([t]) && Interpret(s, [t]) == Sgr(s, P.SaturateAll(t.params))
  {
    hide Sgr;
    assert [t][1..] == [];
  }

  // -------------------------------------------------------------------------
  // Attributes
  // -------------------------------------------------------------------------

  /** A single bit below 0x200 and the code that sets it. */
  predicate IsAttrEntry(e: (Attrs, nat)) {
    e in {(BOLD, 1), (DIM, 2), (ITALIC, 3), (UNDERLINE, 4), (BLINK, 5), (INVERSE, 7), (HIDDEN, 8), (STRIKETHROUGH, 9),
          (CURLY_UNDERLINE, 21)}
  }

  predicate AllAttrEntries(map_: seq<(Attrs, nat)>) {
    forall i :: 0 <= i < |map_| ==> IsAttrEntry(map_[i])
  }

  lemma AttrCode(s: Style, e: (Attrs, nat))
    requires IsAttrEntry(e)
    ensures e.1 <= 21 && Sgr(s, P.SaturateAll([e.1])) == SetAttr(s, e.0)
  {
    hide SetAttr;
    assert P.SaturateAll([e.1]) == [e.1];
    OneCode(s, e.1);
  }

  function MaskOf(map_: seq<(Attrs, nat)>): Attrs {
    if map_ == [] then 0 else Or(map_[0].0, MaskOf(map_[1..]))
  }

  predicate IsSingleBit(bit: Attrs) {
    bit & (bit - 1) == 0 && bit & !ALL_ATTRS == 0
  }

  lemma AddBit(attrs: Attrs, added: Attrs, bit: Attrs, rest: Attrs)
    requires Within(attrs, ALL_ATTRS) && IsSingleBit(bit)
    ensures Within(Masked(Or(attrs, bit), ALL_ATTRS), ALL_ATTRS)
    ensures HasBit(added, bit) ==>
              Or(Masked(Or(attrs, bit), ALL_ATTRS), Masked(added, rest)) == Or(attrs, Masked(added, Or(bit, rest)))
  {
  }

  lemma SkipBit(attrs: Attrs, added: Attrs, bit: Attrs, rest: Attrs)
    requires !HasBit(added, bit)
    ensures Or(attrs, Masked(added, rest)) == Or(attrs, Masked(added, Or(bit, rest)))
  {
  }

  lemma EntryBit(e: (Attrs, nat))
    requires IsAttrEntry(e)
    ensures IsSingleBit(e.0)
  {
  }

  lemma {:induction false} AttrTokensAdd(s: Style, added: Attrs, map_: seq<(Attrs, nat)>)
    requires AllAttrEntries(map_) && Within(s.attrs, ALL_ATTRS)
    ensures AllSgr(AttrTokens(added, map_))
    ensures Interpret(s, AttrTokens(added, map_)) == s.(attrs := Or(s.attrs, Masked(added, MaskOf(map_))))
    decreases map_
  {
    hide Sgr, IsAttrEntry, Or, Masked, HasBit, Within, IsSingleBit;
    if map_ == [] {
      NoBits(s.attrs, added);
    } else {
      var (bit, code) := map_[0];
      var rest := map_[1..];
      var tail := AttrTokens(added, rest);
      assert IsAttrEntry(map_[0]);
      EntryBit(map_[0]);
      if HasBit(added, bit) {
        var t := Control(false, [code], SGR);
        AttrCode(s, map_[0]);
        AddBit(s.attrs, added, bit, MaskOf(rest));
        InterpretOne(s, t);
        assert SetAttr(s, bit) == s.(attrs := Masked(Or(s.attrs, bit), ALL_ATTRS)) by { SetAttrByName(s, bit); }
        AttrTokensAdd(SetAttr(s, bit), added, rest);
        InterpretConcat(s, [t], tail);
      } else {
        SkipBit(s.attrs, added, bit, MaskOf(rest));
        AttrTokensAdd(s, added, rest);
        assert [] + tail == tail;
      }
    }
  }

  lemma SetAttrByName(s: Style, bit: Attrs)
    ensures SetAttr(s, bit) == s.(attrs := Masked(Or(s.attrs, bit), ALL_ATTRS))
  {
  }

  lemma NoBits(attrs: Attrs, added: Attrs)
    ensures Or(attrs, Masked(added, 0)) == attrs
  {
  }

  lemma MapIsMapped()
    ensures AllAttrEntries(ATTR_MAP) && MaskOf(ATTR_MAP) == MAPPED
  {
    var m := ATTR_MAP;
    assert MaskOf(m[9..]) == 0;
    assert m[8..][1..] == m[9..] && m[7..][1..] == m[8..] && m[6..][1..] == m[7..] && m[5..][1..] == m[6..];
    assert m[4..][1..] == m[5..] && m[3..][1..] == m[4..] && m[2..][1..] == m[3..] && m[1..][1..] == m[2..];
    assert MaskOf(m[8..]) == 0x100 | 0;
    assert MaskOf(m[7..]) == 0x180;
    assert MaskOf(m[6..]) == 0x1C0;
    assert MaskOf(m[5..]) == 0x1E0;
    assert MaskOf(m[4..]) == 0x1F0;
    assert MaskOf(m[3..]) == 0x1F8;
    assert MaskOf(m[2..]) == 0x1FC;
    assert MaskOf(m[1..]) == 0x1FE;
  }

  // -------------------------------------------------------------------------
  // Colours
  // -------------------------------------------------------------------------

  lemma SmallParams(ps: seq<nat>)
    requires forall i :: 0 <= i < |ps| ==> ps[i] <= 0xFFFF
    ensures P.SaturateAll(ps) == ps
  {
  }

  lemma DefaultCodes(s: Style)
    ensures SgrCode(s, 39) == SetForeground(s, Default) && SgrCode(s, 49) == SetBackground(s, Default)
  {
  }

  lemma ForegroundCode(s: Style, c: ColorData)
    ensures IsSgr(ColorToken(c, FOREGROUND))
    ensures Sgr(s, P.SaturateAll(ColorToken(c, FOREGROUND).params)) == s.(fg := HostColor(c))
  {
    hide SgrCodes, SgrCode;
    var ps := ColorToken(c, FOREGROUND).params;
    SmallParams(ps);
    match c
    case DefaultColor =>
      OneCode(s, 39);
      assert SgrCode(s, 39) == SetForeground(s, Default) by { DefaultCodes(s); }
    case IndexedColor(i) =>
      assert ps == [38, 5, i];
      ExtendedCode(s, ps, Indexed(i));
    case RgbColor(r, g, b) =>
      assert ps == [38, 2, r, g, b];
      ExtendedCode(s, ps, Rgb(r, g, b));
  }

  lemma BackgroundCode(s: Style, c: ColorData)
    ensures IsSgr(ColorToken(c, BACKGROUND))
    ensures Sgr(s, P.SaturateAll(ColorToken(c, BACKGROUND).params)) == s.(bg := HostColor(c))
  {
    hide SgrCodes, SgrCode;
    var ps := ColorToken(c, BACKGROUND).params;
    SmallParams(ps);
    match c
    case DefaultColor =>
      OneCode(s, 49);
      assert SgrCode(s, 49) == SetBackground(s, Default) by { DefaultCodes(s); }
    case IndexedColor(i) =>
      assert ps == [48, 5, i];
      ExtendedCode(s, ps, Indexed(i));
    case RgbColor(r, g, b) =>
      assert ps == [48, 2, r, g, b];
      ExtendedCode(s, ps, Rgb(r, g, b));
  }

  lemma ResetCode(s: Style)
    ensures IsSgr(SGR_RESET) && Sgr(s, P.SaturateAll(SGR_RESET.params)) == PLAIN
  {
    assert P.SaturateAll([0]) == [0];
    OneCode(s, 0);
  }

  // -------------------------------------------------------------------------
  // The cache
  // -------------------------------------------------------------------------

  /** From any style whose attributes the target keeps. */
  lemma FullTokensStyle(s: Style, target: RenderedStyle)
    requires Within(s.attrs, ALL_ATTRS)
    ensures AllSgr(FullTokens(target))
    ensures Interpret(s, FullTokens(target))
         == Style(HostColor(target.fg), HostColor(target.bg), Or(s.attrs, Masked(target.attrs, MAPPED)))
  {
    hide Sgr, Interpret, AttrTokens, ColorToken, IsSgr, Or, Masked, Within, Without;
    MapIsMapped();
    AttrTokensAdd(s, target.attrs, ATTR_MAP);
    var attrs, fg, bg := AttrTokens(target.attrs, ATTR_MAP), ColorToken(target.fg, FOREGROUND),
      ColorToken(target.bg, BACKGROUND);
    var s1 := Interpret(s, attrs);
    ForegroundCode(s1, target.fg);
    InterpretOne(s1, fg);
    InterpretConcat(s, attrs, [fg]);
    var s2 := Interpret(s, attrs + [fg]);
    BackgroundCode(s2, target.bg);
    InterpretOne(s2, bg);
    InterpretConcat(s, attrs + [fg], [bg]);
  }

  /** The host's style after a cell with this rendered style: attributes without a code never
      reach it. */
  function Shown(s: RenderedStyle): Style {
    HostStyle(s.(attrs := Masked(s.attrs, MAPPED)))
  }

  lemma ChangedTokensStyle(host: Style, last: RenderedStyle, target: RenderedStyle)
    requires Within(host.attrs, ALL_ATTRS) && host.fg == HostColor(last.fg) && host.bg == HostColor(last.bg)
    ensures AllSgr(ChangedTokens(last, target))
    ensures Interpret(host, ChangedTokens(last, target))
         == Style(HostColor(target.fg), HostColor(target.bg),
                  Or(host.attrs, Masked(Without(target.attrs, last.attrs), MAPPED)))
  {
    hide Sgr, AttrTokens, ColorToken, IsSgr, Or, Masked, Within, Without;
    MapIsMapped();
    var added := Without(target.attrs, last.attrs);
    AttrTokensAdd(host, added, ATTR_MAP);
    var attrs := AttrTokens(added, ATTR_MAP);
    var fg := if target.fg != last.fg then [ColorToken(target.fg, FOREGROUND)] else [];
    var bg := if target.bg != last.bg then [ColorToken(target.bg, BACKGROUND)] else [];
    var s1 := Interpret(host, attrs);
    ForegroundCode(s1, target.fg);
    InterpretOne(s1, ColorToken(target.fg, FOREGROUND));
    InterpretConcat(host, attrs, fg);
    var s2 := Interpret(host, attrs + fg);
    assert s2 == s1.(fg := HostColor(target.fg));
    BackgroundCode(s2, target.bg);
    InterpretOne(s2, ColorToken(target.bg, BACKGROUND));
    InterpretConcat(host, attrs + fg, bg);
  }

  lemma AttrAlgebra(last: Attrs, target: Attrs)
    ensures Within(Masked(last, MAPPED), ALL_ATTRS) && Within(0, ALL_ATTRS)
    ensures Without(last, target) == 0 ==>
              Or(Masked(last, MAPPED), Masked(Without(target, last), MAPPED)) == Masked(target, MAPPED)
    ensures Or(0, Masked(target, MAPPED)) == Masked(target, MAPPED)
    ensures Masked(target, MAPPED) == target <==> Within(target, MAPPED)
  {
  }

  /** What the cache emits takes a host that shows the last cell's style to the one that shows
      the next, which is the cell's own if and only if all its attributes have codes. */
  lemma EmitSgrStyle(last: RenderedStyle, target: RenderedStyle)
    ensures AllSgr(EmitSgr(last, target)) && Interpret(Shown(last), EmitSgr(last, target)) == Shown(target)
    ensures Shown(target) == HostStyle(target) <==> Within(target.attrs, MAPPED)
  {
    hide Sgr, FullTokens, ChangedTokens, IsSgr, Or, Masked, Within, Without;
    AttrAlgebra(last.attrs, target.attrs);
    if last == target {
    } else if Without(last.attrs, target.attrs) != 0 {
      ResetCode(Shown(last));
      InterpretOne(Shown(last), SGR_RESET);
      FullTokensStyle(PLAIN, target);
      InterpretConcat(Shown(last), [SGR_RESET], FullTokens(target));
    } else {
      ChangedTokensStyle(Shown(last), last, target);
    }
  }

  /** A reset before the full style does the same, whatever the host showed. */
  lemma EmitNaivelyStyle(host: Style, target: RenderedStyle)
    ensures AllSgr(EmitNaively(target)) && Interpret(host, EmitNaively(target)) == Shown(target)
  {
    hide Sgr, FullTokens, IsSgr, Or, Masked, Within, Without;
    AttrAlgebra(0, target.attrs);
    ResetCode(host);
    InterpretOne(host, SGR_RESET);
    FullTokensStyle(PLAIN, target);
    InterpretConcat(host, [SGR_RESET], FullTokens(target));
  }

  /** The host's style at each cell of a list when only changes of style are sent. */
  function StylesWithCache(host: Style, last: RenderedStyle, cells: seq<RenderedStyle>): (styles: seq<Style>)
    ensures |styles| == |cells|
    decreases cells
  {
    if cells == [] then [] else
    EmitSgrStyle(last, cells[0]);
    var next := Interpret(host, EmitSgr(last, cells[0]));
    [next] + StylesWithCache(next, cells[0], cells[1..])
  }

  /** The same when every cell is preceded by a reset and its full style. */
  function StylesWithResets(host: Style, cells: seq<RenderedStyle>): (styles: seq<Style>)
    ensures |styles| == |cells|
    decreases cells
  {
    if cells == [] then [] else
    EmitNaivelyStyle(host, cells[0]);
    var next := Interpret(host, EmitNaively(cells[0]));
    [next] + StylesWithResets(next, cells[1..])
  }

  /** Over any list of cells the cache changes what is sent, not what the host shows: at every
      cell it has the style it would have with a reset before each, which is the cell's own at
      all of them if and only if all their attributes have codes. */
  lemma CacheRefinesNaiveEmission(host: Style, last: RenderedStyle, cells: seq<RenderedStyle>)
    ensures StylesWithCache(Shown(last), last, cells) == StylesWithResets(host, cells)
    ensures (forall i :: 0 <= i < |cells| ==> StylesWithResets(host, cells)[i] == HostStyle(cells[i]))
            <==> forall i :: 0 <= i < |cells| ==> Within(cells[i].attrs, MAPPED)
  {
    hide StylesWithCache, StylesWithResets, Shown, HostStyle, Within;
    CachedStyles(last, cells);
    ResetStyles(host, cells);
    forall i | 0 <= i < |cells| ensures Shown(cells[i]) == HostStyle(cells[i]) <==> Within(cells[i].attrs, MAPPED) {
      EmitSgrStyle(last, cells[i]);
    }
  }

  lemma {:induction false} CachedStyles(last: RenderedStyle, cells: seq<RenderedStyle>)
    ensures forall i :: 0 <= i < |cells| ==> StylesWithCache(Shown(last), last, cells)[i] == Shown(cells[i])
    decreases cells
  {
    hide Interpret, EmitSgr, Shown;
    if cells != [] {
      EmitSgrStyle(last, cells[0]);
      CachedStyles(cells[0], cells[1..]);
    }
  }

  lemma {:induction false} ResetStyles(host: Style, cells: seq<RenderedStyle>)
    ensures forall i :: 0 <= i < |cells| ==> StylesWithResets(host, cells)[i] == Shown(cells[i])
    decreases cells
  {
    hide Interpret, EmitNaively, Shown;
    if cells != [] {
      EmitNaivelyStyle(host, cells[0]);
      ResetStyles(Shown(cells[0]), cells[1..]);
    }
  }

  // -------------------------------------------------------------------------
  // The host
  // -------------------------------------------------------------------------

  lemma StyleOnlyChange(g: Grid, s1: Style, s2: Style)
    requires g.Valid()
    ensures SetStyle(SetStyle(g, s1), s2) == SetStyle(g, s2)
    ensures SetStyle(g, g.cursor.style) == g
  {
  }

  lemma SgrHandled(t: TerminalState, tok: Token, width: char -> Width)
    requires t.Valid() && IsSgr(tok)
    ensures EventsOf(tok) == [Events([tok])[0]]
    ensures Handle(t, EventsOf(tok)[0], width)
         == t.(grid := SetStyle(t.grid, Sgr(t.grid.cursor.style, P.SaturateAll(tok.params))))
  {
    hide Sgr;
    EventsOne(tok);
  }

  /** On the terminal, SGR tokens change the cursor's style and nothing else. */
  lemma {:induction false} SgrTokensHandled(t: TerminalState, ts: seq<Token>, width: char -> Width)
    requires t.Valid() && AllSgr(ts)
    ensures AllReadable(ts)
    ensures HandleAll(t, Events(ts), width) == t.(grid := SetStyle(t.grid, Interpret(t.grid.cursor.style, ts)))
    decreases ts
  {
    hide Sgr, Handle;
    if ts == [] {
      StyleOnlyChange(t.grid, PLAIN, PLAIN);
    } else {
      var tok, e := ts[0], EventsOf(ts[0]);
      SgrHandled(t, tok, width);
      var t1 := Handle(t, e[0], width);
      assert (e + Events(ts[1..]))[1..] == Events(ts[1..]);
      SgrTokensHandled(t1, ts[1..], width);
    }
  }
}
