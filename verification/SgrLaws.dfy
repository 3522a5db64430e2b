/** What the codes of a style sequence mean, stated by each other: named colours by indexed ones,
    off codes by the on codes they undo, and sequences by their codes (ECMA-48, section 8.3.117). */
module SgrLaws {
  import opened Common
  import opened Styles
  import opened Terminals

  // -------------------------------------------------------------------------
  // Sequences of codes
  // -------------------------------------------------------------------------

  /** A code that no further parameters belong to. */
  predicate IsSimple(p: u16) {
    p != 38 && p != 48
  }

  predicate AllSimple(params: seq<u16>) {
    forall i :: 0 <= i < |params| ==> IsSimple(params[i])
  }

  lemma OneCode(s: Style, p: u16)
    requires IsSimple(p)
    ensures Sgr(s, [p]) == SgrCode(s, p)
  {
    hide SgrCode;
    var params := [p];
    assert params[1..] == [];
    assert SgrCodes(s, params) == SgrCodes(SgrCode(s, p), params[1..]);
  }

  /** A sequence of simple codes followed by any others does what the two do one after the
      other. */
  lemma {:induction false} CodesCompose(s: Style, a: seq<u16>, b: seq<u16>)
    requires a != [] && b != [] && AllSimple(a)
    ensures Sgr(s, a + b) == Sgr(Sgr(s, a), b)
    decreases a
  {
    hide SgrCode, ExtendedColor;
    assert IsSimple(a[0]);
    assert (a + b)[0] == a[0] && (a + b)[1..] == a[1..] + b;
    if |a| == 1 {
      assert a == [a[0]] && a[1..] + b == b;
      OneCode(s, a[0]);
    } else {
      CodesCompose(SgrCode(s, a[0]), a[1..], b);
    }
  }

  // -------------------------------------------------------------------------
  // Colours
  // -------------------------------------------------------------------------

  /** A colour sequence that takes all the parameters. */
  lemma ExtendedCode(s: Style, ps: seq<u16>, color: Color)
    requires ps != [] && (ps[0] == 38 || ps[0] == 48) && ExtendedColor(ps) == (Some(color), |ps|)
    ensures Sgr(s, ps) == if ps[0] == 38 then SetForeground(s, color) else SetBackground(s, color)
  {
    hide SgrCode;
    var s' := if ps[0] == 38 then SetForeground(s, color) else SetBackground(s, color);
    assert ps[|ps|..] == [];
    assert SgrCodes(s', []) == s';
    assert SgrCodes(s, ps) == SgrCodes(s', ps[|ps|..]);
  }

  /** Parameters above 255 count as 255. */
  lemma IndexedColors(s: Style, n: u16)
    ensures Sgr(s, [38, 5, n]) == s.(fg := Indexed(Min(n, 255)))
    ensures Sgr(s, [48, 5, n]) == s.(bg := Indexed(Min(n, 255)))
  {
    hide Sgr;
    ExtendedCode(s, [38, 5, n], Indexed(Min(n, 255)));
    ExtendedCode(s, [48, 5, n], Indexed(Min(n, 255)));
  }

  lemma RgbColors(s: Style, r: u16, g: u16, b: u16)
    ensures Sgr(s, [38, 2, r, g, b]) == s.(fg := Rgb(Min(r, 255), Min(g, 255), Min(b, 255)))
    ensures Sgr(s, [48, 2, r, g, b]) == s.(bg := Rgb(Min(r, 255), Min(g, 255), Min(b, 255)))
  {
    hide Sgr;
    ExtendedCode(s, [38, 2, r, g, b], Rgb(Min(r, 255), Min(g, 255), Min(b, 255)));
    ExtendedCode(s, [48, 2, r, g, b], Rgb(Min(r, 255), Min(g, 255), Min(b, 255)));
  }

  /** The eight named colours and their bright forms are the first sixteen of the palette. */
  lemma NamedColorsAreIndexed(s: Style, k: u16)
    requires k < 8
    ensures Sgr(s, [30 + k]) == Sgr(s, [38, 5, k])
    ensures Sgr(s, [90 + k]) == Sgr(s, [38, 5, 8 + k])
    ensures Sgr(s, [40 + k]) == Sgr(s, [48, 5, k])
    ensures Sgr(s, [100 + k]) == Sgr(s, [48, 5, 8 + k])
  {
    IndexedColors(s, k);
    IndexedColors(s, 8 + k);
    OneCode(s, 30 + k);
    OneCode(s, 90 + k);
    OneCode(s, 40 + k);
    OneCode(s, 100 + k);
  }

  /** The default colours forget the colour last set and nothing else. */
  lemma DefaultColors(s: Style)
    ensures Sgr(s, [39]) == s.(fg := Default)
    ensures Sgr(s, [49]) == s.(bg := Default)
  {
    OneCode(s, 39);
    OneCode(s, 49);
  }

  /** A colour of three components that breaks off is not skipped: the components that are there
      act as codes of their own. */
  lemma CutColorIsMisread(s: Style, ground: u16, rest: seq<u16>)
    requires ground in {38, 48} && |rest| < 3
    ensures Sgr(s, [ground, 2] + rest) == if rest == [] then s else Sgr(s, rest)
  {
    hide SgrCode;
    var params := [ground, 2] + rest;
    assert params[2..] == rest && ExtendedColor(params) == (None, 2);
    assert SgrCodes(s, params) == SgrCodes(s, params[2..]);
  }

  /** One component of 1 makes the text bold. */
  lemma CutColorCanMakeBold()
    ensures Sgr(PLAIN, [38, 2] + [1]) == PLAIN.(attrs := BOLD) != PLAIN
  {
    CutColorIsMisread(PLAIN, 38, [1]);
    OneCode(PLAIN, 1);
  }

  // -------------------------------------------------------------------------
  // Attributes
  // -------------------------------------------------------------------------

  predicate IsOn(p: u16) {
    p in {1, 2, 3, 4, 5, 7, 8, 9, 21}
  }

  /** The attribute that a code gives to plain text. */
  function GivenBy(p: u16): Attrs {
    Sgr(PLAIN, [p]).attrs
  }

  /** The code that turns off what `p` turned on. */
  function OffOf(p: u16): u16
    requires IsOn(p)
  {
    if p == 1 || p == 2 then 22 else if p == 4 || p == 21 then 24 else 20 + p
  }

  /** What an off code clears: the attributes of its on codes and, with the underline, two kinds
      of underline that no code turns on. */
  function ClearedBy(off: u16): Attrs
    requires off > 20
  {
    if off == 22 then Or(GivenBy(1), GivenBy(2))
    else if off == 24 then Or(Or(GivenBy(4), GivenBy(21)), Or(DOTTED_UNDERLINE, DASHED_UNDERLINE))
    else GivenBy(off - 20)
  }

  function BitOf(p: u16): Attrs
    requires IsOn(p)
  {
    match p
    case 1 => BOLD
    case 2 => DIM
    case 3 => ITALIC
    case 4 => UNDERLINE
    case 5 => BLINK
    case 7 => INVERSE
    case 8 => HIDDEN
    case 9 => STRIKETHROUGH
    case _ => CURLY_UNDERLINE
  }

  lemma OnCode(s: Style, p: u16)
    requires IsOn(p)
    ensures SgrCode(s, p) == SetAttr(s, BitOf(p))
    ensures Within(BitOf(p), ALL_ATTRS)
  {
    hide SetAttr;
  }

  lemma AddWithin(attrs: Attrs, bit: Attrs)
    requires Within(attrs, ALL_ATTRS) && Within(bit, ALL_ATTRS)
    ensures (attrs | bit) & ALL_ATTRS == Or(attrs, bit) && Within(Or(attrs, bit), ALL_ATTRS)
  {
  }

  lemma SetBit(s: Style, bit: Attrs)
    requires Within(s.attrs, ALL_ATTRS) && Within(bit, ALL_ATTRS)
    ensures SetAttr(s, bit) == s.(attrs := Or(s.attrs, bit)) && Within(SetAttr(s, bit).attrs, ALL_ATTRS)
  {
    hide Or, Within;
    AddWithin(s.attrs, bit);
  }

  lemma AddToNone(bit: Attrs)
    ensures Or(0, bit) == bit && Within(0, ALL_ATTRS)
  {
  }

  lemma GivenIsBit(p: u16)
    requires IsOn(p)
    ensures GivenBy(p) == BitOf(p)
  {
    OnCode(PLAIN, p);
    hide Sgr, SgrCode, BitOf, Or, Within, SetAttr;
    OneCode(PLAIN, p);
    AddToNone(BitOf(p));
    SetBit(PLAIN, BitOf(p));
  }

  /** An on code adds its attribute to any style. */
  lemma OnAdds(s: Style, p: u16)
    requires IsOn(p) && Within(s.attrs, ALL_ATTRS)
    ensures Sgr(s, [p]) == s.(attrs := Or(s.attrs, GivenBy(p))) && Within(Sgr(s, [p]).attrs, ALL_ATTRS)
  {
    OnCode(s, p);
    GivenIsBit(p);
    hide Sgr, SgrCode, BitOf, Or, Within, GivenBy, SetAttr;
    OneCode(s, p);
    SetBit(s, BitOf(p));
  }

  lemma RemoveWithin(attrs: Attrs, bit: Attrs)
    requires Within(attrs, ALL_ATTRS)
    ensures attrs & !bit & ALL_ATTRS == Without(attrs, bit) && Within(Without(attrs, bit), ALL_ATTRS)
  {
  }

  lemma RemoveTwo(attrs: Attrs, a: Attrs, b: Attrs)
    ensures Without(Without(attrs, a), b) == Without(attrs, Or(a, b))
  {
  }

  lemma ClearBit(s: Style, bit: Attrs)
    requires Within(s.attrs, ALL_ATTRS)
    ensures ClearAttr(s, bit) == s.(attrs := Without(s.attrs, bit)) && Within(ClearAttr(s, bit).attrs, ALL_ATTRS)
  {
    hide Without, Within;
    RemoveWithin(s.attrs, bit);
  }

  lemma ClearTwo(s: Style, a: Attrs, b: Attrs)
    requires Within(s.attrs, ALL_ATTRS)
    ensures ClearAttr(ClearAttr(s, a), b) == s.(attrs := Without(s.attrs, Or(a, b)))
    ensures Within(ClearAttr(ClearAttr(s, a), b).attrs, ALL_ATTRS)
  {
    hide ClearAttr, Without, Or, Within;
    ClearBit(s, a);
    ClearBit(ClearAttr(s, a), b);
    RemoveTwo(s.attrs, a, b);
  }

  lemma ClearFour(s: Style, a: Attrs, b: Attrs, c: Attrs, d: Attrs)
    requires Within(s.attrs, ALL_ATTRS)
    ensures ClearAttr(ClearAttr(ClearAttr(ClearAttr(s, a), b), c), d)
         == s.(attrs := Without(s.attrs, Or(Or(a, b), Or(c, d))))
  {
    hide ClearAttr, Without, Or, Within;
    ClearTwo(s, a, b);
    ClearTwo(ClearAttr(ClearAttr(s, a), b), c, d);
    RemoveTwo(s.attrs, Or(a, b), Or(c, d));
  }

  /** An off code clears the attributes of its on codes, whichever of them are set, and leaves
      the other attributes and both colours as they were. */
  lemma OffClears(s: Style, p: u16)
    requires IsOn(p) && Within(s.attrs, ALL_ATTRS)
    ensures Sgr(s, [OffOf(p)]) == s.(attrs := Without(s.attrs, ClearedBy(OffOf(p))))
  {
    hide Sgr, Without, Or, Within, GivenBy, ClearAttr;
    OneCode(s, OffOf(p));
    GivenIsBit(p);
    if p == 1 || p == 2 {
      GivenIsBit(3 - p);
      ClearTwo(s, BOLD, DIM);
    } else if p == 4 || p == 21 {
      GivenIsBit(25 - p);
      ClearFour(s, UNDERLINE, CURLY_UNDERLINE, DOTTED_UNDERLINE, DASHED_UNDERLINE);
    } else {
      ClearBit(s, BitOf(p));
    }
  }

  lemma AddThenRemove(attrs: Attrs, bit: Attrs, mask: Attrs)
    requires Within(bit, mask)
    ensures Without(Or(attrs, bit), mask) == Without(attrs, mask)
  {
  }

  lemma InClearedBy(p: u16)
    requires IsOn(p)
    ensures Within(GivenBy(p), ClearedBy(OffOf(p)))
  {
    hide GivenBy;
    GivenIsBit(p);
    if p == 1 || p == 2 {
      GivenIsBit(3 - p);
    } else if p == 4 || p == 21 {
      GivenIsBit(25 - p);
    }
  }

  /** It does so, too, right behind one of its on codes. */
  lemma OffUndoesOn(s: Style, p: u16)
    requires IsOn(p) && Within(s.attrs, ALL_ATTRS)
    ensures Sgr(s, [p, OffOf(p)]) == Sgr(s, [OffOf(p)])
  {
    hide Sgr, Or, Without, GivenBy, ClearedBy, Within;
    CodesCompose(s, [p], [OffOf(p)]);
    assert [p] + [OffOf(p)] == [p, OffOf(p)];
    OnAdds(s, p);
    OffClears(Sgr(s, [p]), p);
    OffClears(s, p);
    InClearedBy(p);
    AddThenRemove(s.attrs, GivenBy(p), ClearedBy(OffOf(p)));
  }

  /** The codes that do nothing when they stand alone. */
  predicate IsIgnored(p: u16) {
    p == 6 || 10 <= p <= 20 || p == 26 || p == 38 || p == 48 || 50 <= p <= 89 || p == 98 || p == 99 || p > 107
  }

  lemma NothingIsReset(s: Style)
    ensures Sgr(s, []) == Sgr(s, [0]) == PLAIN
  {
    OneCode(s, 0);
  }

  lemma IgnoredCode(s: Style, p: u16)
    requires IsIgnored(p)
    ensures Sgr(s, [p]) == s
  {
    var params := [p];
    assert params[1..] == [];
    assert SgrCodes(s, params) == SgrCodes(s, params[1..]);
  }
}
