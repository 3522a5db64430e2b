/** Text styles: a foreground, a background and twelve attribute bits. */
module Styles {
  import opened Common

  datatype Color = Default | Named(index: byte) | Indexed(index: byte) | Rgb(r: byte, g: byte, b: byte)

  type Attrs = bv16

  const BOLD: Attrs := 0x001
  const DIM: Attrs := 0x002
  const ITALIC: Attrs := 0x004
  const UNDERLINE: Attrs := 0x008
  const BLINK: Attrs := 0x010
  const INVERSE: Attrs := 0x020
  const HIDDEN: Attrs := 0x040
  const STRIKETHROUGH: Attrs := 0x080
  const CURLY_UNDERLINE: Attrs := 0x100
  const DOTTED_UNDERLINE: Attrs := 0x200
  const DASHED_UNDERLINE: Attrs := 0x400
  const ALL_ATTRS: Attrs := 0xFFF

  // Bit operations by name.

  function Or(a: Attrs, b: Attrs): Attrs { a | b }

  /** The bits of `a` that are not in `b`. */
  function Without(a: Attrs, b: Attrs): Attrs { a & !b }

  predicate HasBit(a: Attrs, bit: Attrs) { a & bit != 0 }

  predicate Within(a: Attrs, mask: Attrs) { a & !mask == 0 }

  function Masked(a: Attrs, mask: Attrs): Attrs { a & mask }

  datatype Style = Style(fg: Color, bg: Color, attrs: Attrs)

  const PLAIN: Style := Style(Default, Default, 0)

  /** Named and indexed colours share the palette and are stored alike. */
  function Stored(c: Color): Color {
    match c
    case Named(i) => Indexed(i)
    case _ => c
  }

  function SetForeground(s: Style, c: Color): Style {
    s.(fg := Stored(c))
  }

  function SetBackground(s: Style, c: Color): Style {
    s.(bg := Stored(c))
  }

  function SetAttr(s: Style, a: Attrs): Style {
    s.(attrs := (s.attrs | a) & ALL_ATTRS)
  }

  function ClearAttr(s: Style, a: Attrs): Style {
    s.(attrs := s.attrs & !a & ALL_ATTRS)
  }
}

/** The 64-bit representation of a style: bits 0-25 the foreground (a two-bit tag, then
    three bytes), bits 26-51 the background, bits 52-63 the attributes. */
module PackedStyles {
  import opened Common
  import opened Styles
  import Octets

  type Word = bv64

  const TAG_MASK: Word := 0x3
  const DATA_MASK: Word := 0xFF
  const ATTR_MASK: Word := 0xFFF

  /** A colour as stored: two tag bits and three bytes. */
  datatype Bits = Bits(tag: Word, d0: Word, d1: Word, d2: Word)

  function ByteWord(b: byte): (w: Word)
    ensures w <= DATA_MASK
  {
    Octets.Bits(b) as Word
  }

  function WordByte(w: Word): byte
    requires w <= DATA_MASK
  {
    Octets.Number(w as bv8)
  }

  function EncodeColor(c: Color): Bits {
    match c
    case Default => Bits(0, 0, 0, 0)
    case Named(i) => Bits(1, ByteWord(i), 0, 0)
    case Indexed(i) => Bits(1, ByteWord(i), 0, 0)
    case Rgb(r, g, b) => Bits(2, ByteWord(r), ByteWord(g), ByteWord(b))
  }

  predicate InRange(c: Bits) {
    c.tag <= TAG_MASK && c.d0 <= DATA_MASK && c.d1 <= DATA_MASK && c.d2 <= DATA_MASK
  }

  function DecodeColor(c: Bits): Color
    requires InRange(c)
  {
    if c.tag == 1 then Indexed(WordByte(c.d0))
    else if c.tag == 2 then Rgb(WordByte(c.d0), WordByte(c.d1), WordByte(c.d2))
    else Default
  }

  function PutForeground(w: Word, c: Bits): Word {
    (w & !((TAG_MASK << 0) | (DATA_MASK << 2) | (DATA_MASK << 10) | (DATA_MASK << 18)))
    | ((c.tag & TAG_MASK) << 0)
    | ((c.d0 & DATA_MASK) << 2)
    | ((c.d1 & DATA_MASK) << 10)
    | ((c.d2 & DATA_MASK) << 18)
  }

  function PutBackground(w: Word, c: Bits): Word {
    (w & !((TAG_MASK << 26) | (DATA_MASK << 28) | (DATA_MASK << 36) | (DATA_MASK << 44)))
    | ((c.tag & TAG_MASK) << 26)
    | ((c.d0 & DATA_MASK) << 28)
    | ((c.d1 & DATA_MASK) << 36)
    | ((c.d2 & DATA_MASK) << 44)
  }

  function GetForeground(w: Word): (c: Bits)
    ensures InRange(c)
  {
    Bits((w >> 0) & TAG_MASK, (w >> 2) & DATA_MASK, (w >> 10) & DATA_MASK, (w >> 18) & DATA_MASK)
  }

  function GetBackground(w: Word): (c: Bits)
    ensures InRange(c)
  {
    Bits((w >> 26) & TAG_MASK, (w >> 28) & DATA_MASK, (w >> 36) & DATA_MASK, (w >> 44) & DATA_MASK)
  }

  function GetAttrs(w: Word): (a: Word)
    ensures a <= ATTR_MASK
  {
    (w >> 52) & ATTR_MASK
  }

  function PutAttrs(w: Word, a: Word): Word {
    (w & !(ATTR_MASK << 52)) | ((a & ATTR_MASK) << 52)
  }

  /** The style a word stands for. */
  function View(w: Word): Style {
    Style(DecodeColor(GetForeground(w)), DecodeColor(GetBackground(w)), GetAttrs(w) as Attrs)
  }

  lemma ForegroundReadsBack(w: Word, c: Bits)
    requires InRange(c)
    ensures GetForeground(PutForeground(w, c)) == c
    ensures GetBackground(PutForeground(w, c)) == GetBackground(w)
    ensures GetAttrs(PutForeground(w, c)) == GetAttrs(w)
  {
  }

  lemma BackgroundReadsBack(w: Word, c: Bits)
    requires InRange(c)
    ensures GetBackground(PutBackground(w, c)) == c
    ensures GetForeground(PutBackground(w, c)) == GetForeground(w)
    ensures GetAttrs(PutBackground(w, c)) == GetAttrs(w)
  {
  }

  lemma AttrsReadBack(w: Word, a: Word)
    ensures GetAttrs(PutAttrs(w, a)) == a & ATTR_MASK
    ensures GetForeground(PutAttrs(w, a)) == GetForeground(w)
    ensures GetBackground(PutAttrs(w, a)) == GetBackground(w)
  {
  }

  lemma WordOfOctet(b: bv8)
    ensures b as Word <= DATA_MASK && (b as Word) as bv8 == b
  {
  }

  lemma ByteReadsBack(b: byte)
    ensures WordByte(ByteWord(b)) == b
  {
    hide Octets.Bits, Octets.Number;
    Octets.NumberInverse(0, b);
    WordOfOctet(Octets.Bits(b));
  }

  /** Every colour, all 16 777 216 RGB values included, survives its encoding; a named
      colour comes back as the palette index it shares. */
  lemma ColorReadsBack(c: Color)
    ensures InRange(EncodeColor(c)) && DecodeColor(EncodeColor(c)) == Stored(c)
  {
    hide ByteWord, WordByte;
    match c
    case Default =>
    case Named(i) => ByteReadsBack(i);
    case Indexed(i) => ByteReadsBack(i);
    case Rgb(r, g, b) => ByteReadsBack(r); ByteReadsBack(g); ByteReadsBack(b);
  }

  function OrBits(w: Word, a: Attrs): (r: Word)
    ensures r <= ATTR_MASK
  {
    (w | a as Word) & ATTR_MASK
  }

  function AndNotBits(w: Word, a: Attrs): (r: Word)
    ensures r <= ATTR_MASK
  {
    w & !(a as Word) & ATTR_MASK
  }

  lemma AttrWords(w: Word, a: Attrs)
    requires w <= ATTR_MASK
    ensures OrBits(w, a) as Attrs == (w as Attrs | a) & ALL_ATTRS
    ensures AndNotBits(w, a) as Attrs == (w as Attrs) & !a & ALL_ATTRS
  {
  }

  lemma MaskedAttrsReadBack(w: Word, a: Word)
    requires a <= ATTR_MASK
    ensures GetAttrs(PutAttrs(w, a)) == a
  {
  }

  lemma SetAttrView(w: Word, a: Attrs)
    ensures View(PutAttrs(w, OrBits(GetAttrs(w), a))) == SetAttr(View(w), a)
  {
    hide PutAttrs, GetForeground, GetBackground, GetAttrs, DecodeColor, OrBits;
    AttrWords(GetAttrs(w), a);
    MaskedAttrsReadBack(w, OrBits(GetAttrs(w), a));
    AttrsReadBack(w, OrBits(GetAttrs(w), a));
  }

  lemma ClearAttrView(w: Word, a: Attrs)
    ensures View(PutAttrs(w, AndNotBits(GetAttrs(w), a))) == ClearAttr(View(w), a)
  {
    hide PutAttrs, GetForeground, GetBackground, GetAttrs, DecodeColor, AndNotBits;
    AttrWords(GetAttrs(w), a);
    MaskedAttrsReadBack(w, AndNotBits(GetAttrs(w), a));
    AttrsReadBack(w, AndNotBits(GetAttrs(w), a));
  }

  class PackedStyle {
    var word: Word

    constructor ()
      ensures View(word) == PLAIN
    {
      word := 0;
    }

    method SetForeground(c: Color)
      modifies this
      ensures View(word) == Styles.SetForeground(old(View(word)), c)
    {
      hide ByteWord, WordByte, PutForeground, GetForeground, GetBackground, GetAttrs, EncodeColor, DecodeColor;
      ColorReadsBack(c);
      ForegroundReadsBack(word, EncodeColor(c));
      word := PutForeground(word, EncodeColor(c));
    }

    method SetBackground(c: Color)
      modifies this
      ensures View(word) == Styles.SetBackground(old(View(word)), c)
    {
      hide ByteWord, WordByte, PutBackground, GetForeground, GetBackground, GetAttrs, EncodeColor, DecodeColor;
      ColorReadsBack(c);
      BackgroundReadsBack(word, EncodeColor(c));
      word := PutBackground(word, EncodeColor(c));
    }

    method SetAttr(a: Attrs)
      modifies this
      ensures View(word) == Styles.SetAttr(old(View(word)), a)
    {
      hide PutAttrs, View, GetAttrs, Styles.SetAttr;
      SetAttrView(word, a);
      var current := GetAttrs(word);
      word := PutAttrs(word, OrBits(current, a));
    }

    method ClearAttr(a: Attrs)
      modifies this
      ensures View(word) == Styles.ClearAttr(old(View(word)), a)
    {
      hide PutAttrs, View, GetAttrs, Styles.ClearAttr;
      ClearAttrView(word, a);
      var current := GetAttrs(word);
      word := PutAttrs(word, AndNotBits(current, a));
    }

    method Reset()
      modifies this
      ensures View(word) == PLAIN
    {
      word := 0;
    }
  }
}
