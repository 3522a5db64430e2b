/** Layout trees as s-expressions such as `(v 0.70 (h 0.50 [1] [2]) [3])`. */
module LayoutText {
  import opened Common
  import opened Layouts
  import D = Decimal

  // -------------------------------------------------------------------------
  // Whitespace and searching
  // -------------------------------------------------------------------------

  /** The characters with the Unicode White_Space property. */
  predicate IsWhitespace(c: char) {
    var v := c as int;
    || 0x09 <= v <= 0x0D || v == 0x20 || v == 0x85 || v == 0xA0 || v == 0x1680 || 0x2000 <= v <= 0x200A
    || v == 0x2028 || v == 0x2029 || v == 0x202F || v == 0x205F || v == 0x3000
  }

  function TrimStart(s: string): (r: string)
    ensures |r| <= |s| && (r == [] || !IsWhitespace(r[0]))
  {
    if s != [] && IsWhitespace(s[0]) then TrimStart(s[1..]) else s
  }

  function TrimEnd(s: string): (r: string)
    ensures |r| <= |s|
  {
    if s != [] && IsWhitespace(s[|s| - 1]) then TrimEnd(s[..|s| - 1]) else s
  }

  function Trim(s: string): string {
    TrimEnd(TrimStart(s))
  }

  /** What is before and behind the first whitespace character. */
  function SplitOnce(s: string): (r: Option<(string, string)>)
    ensures r.Some? ==> |r.value.0| + 1 + |r.value.1| == |s|
  {
    if s == [] then None
    else if IsWhitespace(s[0]) then Some(([], s[1..]))
    else
      match SplitOnce(s[1..])
      case None => None
      case Some((before, behind)) => Some(([s[0]] + before, behind))
  }

  /** The position of the first `c`, or the length. */
  function IndexOf(s: string, c: char): (i: nat)
    ensures i <= |s|
  {
    if s == [] || s[0] == c then 0 else 1 + IndexOf(s[1..], c)
  }

  // -------------------------------------------------------------------------
  // Numbers
  // -------------------------------------------------------------------------

  function Chars(ds: seq<byte>): string {
    seq(|ds|, i requires 0 <= i < |ds| => ds[i] as char)
  }

  predicate AllDigits(s: string) {
    forall i :: 0 <= i < |s| ==> '0' <= s[i] <= '9'
  }

  function Codes(s: string): (ds: seq<byte>)
    requires AllDigits(s)
    ensures D.AllDigits(ds)
  {
    seq(|s|, i requires 0 <= i < |s| => s[i] as int)
  }

  function Numeral(n: nat): string {
    Chars(D.Digits(n))
  }

  function ValueOf(s: string): nat
    requires AllDigits(s)
  {
    D.Value(Codes(s))
  }

  /** A 32-bit number: digits, with an optional plus sign. */
  function ParseU32(s: string): Option<u32> {
    var digits := if s != [] && s[0] == '+' then s[1..] else s;
    if digits == [] || !AllDigits(digits) || ValueOf(digits) >= 0x1_0000_0000 then None
    else Some(ValueOf(digits))
  }

  /** The nearest number of hundredths, ties to even. */
  function Hundredths(x: real): (h: nat)
    requires x >= 0.0
  {
    var floor := (x * 100.0).Floor;
    var part := x * 100.0 - floor as real;
    if part > 0.5 || (part == 0.5 && floor % 2 == 1) then floor + 1 else floor
  }

  function Magnitude(x: real): real {
    if x < 0.0 then 0.0 - x else x
  }

  function TwoDigits(n: nat): string
    requires n < 100
  {
    Chars([0x30 + n / 10, 0x30 + n % 10])
  }

  /** A ratio with two decimals. */
  function FormatRatio(r: real): string {
    var h := Hundredths(Magnitude(r));
    (if r < 0.0 then "-" else "") + Numeral(h / 100) + "." + TwoDigits(h % 100)
  }

  function Pow10(n: nat): (p: nat)
    ensures p > 0
  {
    if n == 0 then 1 else 10 * Pow10(n - 1)
  }

  function Quotient(n: nat, d: nat): real
    requires d > 0
  {
    n as real / d as real
  }

  /** A decimal number: an optional sign, digits, and optionally a point and more digits;
      there is at least one digit. */
  function ParseRatio(s: string): Option<real> {
    var signed := s != [] && (s[0] == '-' || s[0] == '+');
    var digits := if signed then s[1..] else s;
    match ParseMagnitude(digits)
    case None => None
    case Some(x) => Some(if s[..1] == "-" then 0.0 - x else x)
  }

  function ParseMagnitude(s: string): Option<real> {
    var dot := IndexOf(s, '.');
    var whole := s[..dot];
    var fraction := if dot < |s| then s[dot + 1..] else [];
    if AllDigits(whole + fraction) && |whole + fraction| > 0
    then Some(Quotient(ValueOf(whole + fraction), Pow10(|fraction|)))
    else None
  }

  // -------------------------------------------------------------------------
  // Trees
  // -------------------------------------------------------------------------

  function SerializeNode(node: LayoutNode): string {
    match node
    case Pane(id) => "[" + Numeral(id) + "]"
    case Split(direction, ratio, first, second) =>
      "(" + (if direction == Vertical then "v" else "h") + " " + FormatRatio(ratio) + " "
      + SerializeNode(first) + " " + SerializeNode(second) + ")"
  }

  function ParseDirection(s: string): Option<Direction> {
    if s == "v" then Some(Vertical) else if s == "h" then Some(Horizontal) else None
  }

  function ParsePane(body: string): (r: Result<(LayoutNode, string), LayoutError>)
    ensures r.Ok? ==> |r.value.1| < |body|
  {
    var end := IndexOf(body, ']');
    if end == |body| then Err(ParseError) else
    match ParseU32(Trim(body[..end]))
    case None => Err(ParseError)
    case Some(id) => Ok((Pane(id), body[end + 1..]))
  }

  /** Direction and ratio of a split, each followed by whitespace. */
  function ParseHeader(s: string): (r: Result<(Direction, real, string), LayoutError>)
    ensures r.Ok? ==> |r.value.2| < |s|
  {
    match SplitOnce(TrimStart(s))
    case None => Err(ParseError)
    case Some((first, behind)) =>
      match ParseDirection(Trim(first))
      case None => Err(ParseError)
      case Some(direction) =>
        match SplitOnce(TrimStart(behind))
        case None => Err(ParseError)
        case Some((second, behind)) =>
          match ParseRatio(Trim(second))
          case None => Err(ParseError)
          case Some(ratio) => Ok((direction, ratio, behind))
  }

  /** A node at the start of `s`, and what is behind it. */
  function ParseNode(s: string): (r: Result<(LayoutNode, string), LayoutError>)
    ensures r.Ok? ==> |r.value.1| < |s|
    decreases |s|
  {
    var t := TrimStart(s);
    if t == [] then Err(ParseError)
    else if t[0] == '[' then ParsePane(t[1..])
    else if t[0] == '(' then
      match ParseHeader(t[1..])
      case Err(e) => Err(e)
      case Ok((direction, ratio, behind)) =>
        match ParseNode(TrimStart(behind))
        case Err(e) => Err(e)
        case Ok((first, behind)) =>
          match ParseNode(TrimStart(behind))
          case Err(e) => Err(e)
          case Ok((second, behind)) =>
            var closing := TrimStart(behind);
            if closing == [] || closing[0] != ')' then Err(ParseError)
            else Ok((Split(direction, ratio, first, second), closing[1..]))
    else Err(ParseError)
  }

  /** A parsed layout has its first pane active, none zoomed, and the default window. */
  function Deserialize(s: string): Result<Layout, LayoutError> {
    match ParseNode(Trim(s))
    case Err(e) => Err(e)
    case Ok((root, behind)) =>
      if Trim(behind) != [] then Err(ParseError) else Ok(Layout(root, FirstLeaf(root), None, 80, 24))
  }

  // -------------------------------------------------------------------------
  // What a round trip keeps
  // -------------------------------------------------------------------------

  /** The ratio in whole hundredths. */
  function Rounded(r: real): real {
    var x := Hundredths(Magnitude(r)) as real / 100.0;
    if r < 0.0 then 0.0 - x else x
  }

  function RoundedTree(node: LayoutNode): LayoutNode {
    match node
    case Pane(_) => node
    case Split(direction, ratio, first, second) =>
      Split(direction, Rounded(ratio), RoundedTree(first), RoundedTree(second))
  }

  predicate Whole(x: real) {
    x.Floor as real == x
  }

  predicate WholeHundredths(r: real) {
    Whole(r * 100.0)
  }

  predicate AllWholeHundredths(node: LayoutNode) {
    match node
    case Pane(_) => true
    case Split(_, ratio, first, second) =>
      WholeHundredths(ratio) && AllWholeHundredths(first) && AllWholeHundredths(second)
  }

  lemma RoundedIff(r: real)
    ensures Rounded(r) == r <==> WholeHundredths(r)
  {
    var m := Magnitude(r);
    assert Rounded(r) == r <==> Hundredths(m) as real / 100.0 == m;
    assert Hundredths(m) as real / 100.0 == m <==> Hundredths(m) as real == m * 100.0;
    MagnitudeWhole(r);
    HundredthsWhole(m);
  }

  lemma MagnitudeWhole(r: real)
    ensures WholeHundredths(Magnitude(r)) <==> WholeHundredths(r)
  {
    var x, y := r * 100.0, Magnitude(r) * 100.0;
    assert y == x || y == 0.0 - x;
    WholeNegated(x);
    WholeNegated(y);
  }

  lemma FloorOfInteger(k: int)
    ensures (k as real).Floor == k
  {
  }

  lemma WholeNegated(x: real)
    ensures Whole(x) ==> Whole(0.0 - x)
  {
    if Whole(x) {
      var k := 0 - x.Floor;
      assert 0.0 - x == k as real;
      FloorOfInteger(k);
    }
  }

  lemma HundredthsWhole(m: real)
    requires m >= 0.0
    ensures Hundredths(m) as real == m * 100.0 <==> WholeHundredths(m)
  {
    var floor := (m * 100.0).Floor;
    if WholeHundredths(m) {
      assert m * 100.0 - floor as real == 0.0;
    } else {
      FloorOfInteger(Hundredths(m));
    }
  }

  lemma {:induction false} RoundedTreeIff(node: LayoutNode)
    ensures RoundedTree(node) == node <==> AllWholeHundredths(node)
    decreases node
  {
    hide Rounded, WholeHundredths;
    match node {
      case Pane(_) =>
      case Split(_, ratio, first, second) =>
        RoundedIff(ratio);
        RoundedTreeIff(first);
        RoundedTreeIff(second);
    }
  }

  // -------------------------------------------------------------------------
  // Numerals
  // -------------------------------------------------------------------------

  lemma NumeralDigits(n: nat)
    ensures AllDigits(Numeral(n)) && Numeral(n) != [] && Codes(Numeral(n)) == D.Digits(n) && ValueOf(Numeral(n)) == n
  {
    var ds := D.Digits(n);
    forall i | 0 <= i < |ds| ensures '0' <= Chars(ds)[i] <= '9' {
      assert D.IsDigit(ds[i]);
    }
    assert Codes(Chars(ds)) == ds;
    D.ValueOfDigits(n);
  }

  lemma {:induction false} FirstOf(s: string, c: char, tail: string)
    requires c !in s
    ensures IndexOf(s + [c] + tail, c) == |s|
    ensures (s + [c] + tail)[..|s|] == s && (s + [c] + tail)[|s| + 1..] == tail
  {
    if s != [] {
      FirstOf(s[1..], c, tail);
      assert (s + [c] + tail)[1..] == s[1..] + [c] + tail;
    }
  }

  lemma {:induction false} SplitsAtSpace(s: string, tail: string)
    requires forall i :: 0 <= i < |s| ==> !IsWhitespace(s[i])
    ensures SplitOnce(s + " " + tail) == Some((s, tail))
  {
    hide IsWhitespace;
    var whole := s + " " + tail;
    if s == [] {
      assert IsWhitespace(' ') by { SpaceIsWhitespace(); }
      assert whole[1..] == tail;
    } else {
      SplitsAtSpace(s[1..], tail);
      assert whole[1..] == s[1..] + " " + tail;
      assert s == [s[0]] + s[1..];
    }
  }

  lemma SpaceIsWhitespace()
    ensures IsWhitespace(' ')
  {
  }

  /** Text without whitespace is left alone by trimming. */
  lemma NothingToTrim(s: string)
    requires forall i :: 0 <= i < |s| ==> !IsWhitespace(s[i])
    ensures Trim(s) == s
  {
  }

  lemma IdParses(id: u32)
    ensures ParseU32(Trim(Numeral(id))) == Some(id) && ']' !in Numeral(id)
  {
    hide Numeral, ValueOf;
    NumeralDigits(id);
    NothingToTrim(Numeral(id));
    assert forall i :: 0 <= i < |Numeral(id)| ==> '0' <= Numeral(id)[i] <= '9';
  }

  lemma PaneParses(id: u32, tail: string)
    ensures ParseNode(SerializeNode(Pane(id)) + tail) == Ok((Pane(id), tail))
  {
    hide Numeral, ParseU32, Trim;
    var s := SerializeNode(Pane(id)) + tail;
    var body := Numeral(id) + "]" + tail;
    assert s == "[" + body;
    assert s[0] == '[' && s[1..] == body;
    IdParses(id);
    FirstOf(Numeral(id), ']', tail);
    assert TrimStart(s) == s;
  }

  lemma ValueAppend(ds: seq<byte>, a: byte, b: byte)
    requires D.AllDigits(ds) && D.IsDigit(a) && D.IsDigit(b)
    ensures D.Value(ds + [a, b]) == D.Value(ds) * 100 + (a as int - 0x30) * 10 + (b as int - 0x30)
  {
    var one, two := ds + [a], ds + [a, b];
    assert two[..|two| - 1] == one && one[..|one| - 1] == ds;
    assert D.Value(two) == D.Value(one) * 10 + (b as int - 0x30);
    assert D.Value(one) == D.Value(ds) * 10 + (a as int - 0x30);
  }

  lemma TwoDigitsValue(whole: nat, part: nat)
    requires part < 100
    ensures var s := Numeral(whole) + TwoDigits(part);
            AllDigits(TwoDigits(part)) && AllDigits(s) && |TwoDigits(part)| == 2 && ValueOf(s) == whole * 100 + part
  {
    hide Numeral, D.Value;
    NumeralDigits(whole);
    var a: byte, b: byte := 0x30 + part / 10, 0x30 + part % 10;
    var s := Numeral(whole) + TwoDigits(part);
    assert Codes(s) == D.Digits(whole) + [a, b];
    ValueAppend(D.Digits(whole), a, b);
    assert ValueOf(Numeral(whole)) == D.Value(D.Digits(whole));
  }

  lemma DigitsOnly(a: string, b: string)
    requires AllDigits(a) && AllDigits(b)
    ensures AllDigits(a + b) && '.' !in a
  {
  }

  lemma ParsesAtPoint(whole: string, fraction: string)
    requires AllDigits(whole) && AllDigits(fraction) && whole != []
    ensures AllDigits(whole + fraction)
    ensures ParseMagnitude(whole + "." + fraction) == Some(Quotient(ValueOf(whole + fraction), Pow10(|fraction|)))
  {
    hide ValueOf, Pow10, Quotient, AllDigits, IndexOf;
    DigitsOnly(whole, fraction);
    var s := whole + "." + fraction;
    assert "." == ['.'];
    FirstOf(whole, '.', fraction);
    assert IndexOf(s, '.') == |whole| < |s|;
  }

  lemma MagnitudeParses(h: nat)
    ensures ParseMagnitude(Numeral(h / 100) + "." + TwoDigits(h % 100)) == Some(h as real / 100.0)
  {
    var whole, part := h / 100, h % 100;
    assert whole * 100 + part == h;
    assert Pow10(2) == 100;
    assert Quotient(h, 100) == h as real / 100.0;
    hide *;
    TwoDigitsValue(whole, part);
    NumeralDigits(whole);
    ParsesAtPoint(Numeral(whole), TwoDigits(part));
  }

  lemma RatioParses(r: real)
    ensures ParseRatio(FormatRatio(r)) == Some(Rounded(r))
    ensures forall i :: 0 <= i < |FormatRatio(r)| ==> !IsWhitespace(FormatRatio(r)[i])
    ensures FormatRatio(r) != []
  {
    hide Numeral, TwoDigits, ParseMagnitude, Hundredths;
    var h := Hundredths(Magnitude(r));
    MagnitudeParses(h);
    NumeralDigits(h / 100);
    TwoDigitsValue(h / 100, h % 100);
    var digits := Numeral(h / 100) + "." + TwoDigits(h % 100);
    var s := FormatRatio(r);
    if r < 0.0 {
      assert s == "-" + digits;
      assert s[1..] == digits && s[..1] == "-";
    } else {
      assert s == digits;
      assert '0' <= s[0] <= '9';
    }
    forall i | 0 <= i < |s| ensures !IsWhitespace(s[i]) {
      assert s[i] == '-' || s[i] == '.' || '0' <= s[i] <= '9';
    }
  }

  lemma HeaderParses(direction: Direction, ratio: real, tail: string)
    ensures var word := if direction == Vertical then "v" else "h";
            ParseHeader(word + " " + FormatRatio(ratio) + " " + tail) == Ok((direction, Rounded(ratio), tail))
  {
    hide FormatRatio, ParseRatio, Rounded, SplitOnce, Trim;
    var word := if direction == Vertical then "v" else "h";
    var ratioText := FormatRatio(ratio);
    var behind := ratioText + " " + tail;
    assert word + " " + ratioText + " " + tail == word + " " + behind;
    SplitsAtSpace(word, behind);
    NothingToTrim(word);
    RatioParses(ratio);
    SplitsAtSpace(ratioText, tail);
    NothingToTrim(ratioText);
    assert behind[0] == ratioText[0];
    assert TrimStart(behind) == behind;
    assert (word + " " + behind)[0] == word[0];
    assert TrimStart(word + " " + behind) == word + " " + behind;
  }

  lemma StartsVisibly(node: LayoutNode, tail: string)
    ensures var s := SerializeNode(node) + tail;
            s != [] && TrimStart(s) == s && TrimStart(" " + s) == s
  {
    hide SerializeNode, FormatRatio, Numeral;
    FirstCharacter(node);
    var s := SerializeNode(node) + tail;
    assert s[0] == SerializeNode(node)[0];
    assert (" " + s)[1..] == s;
  }

  lemma FirstCharacter(node: LayoutNode)
    ensures SerializeNode(node) != [] && SerializeNode(node)[0] == if node.Pane? then '[' else '('
  {
    hide FormatRatio, Numeral;
  }

  lemma SplitText(node: LayoutNode, tail: string)
    requires node.Split?
    ensures var word := if node.direction == Vertical then "v" else "h";
            var behind := SerializeNode(node.first) + (" " + (SerializeNode(node.second) + (")" + tail)));
            SerializeNode(node) + tail == "(" + (word + " " + FormatRatio(node.ratio) + " " + behind)
  {
    hide FormatRatio, Numeral;
    var word := if node.direction == Vertical then "v" else "h";
    var r, a, b := FormatRatio(node.ratio), SerializeNode(node.first), SerializeNode(node.second);
    assert SerializeNode(node) == "(" + word + " " + r + " " + a + " " + b + ")";
    hide SerializeNode;
    Regroup("(" + word + " " + r + " ", a, b, tail);
    FrontBracket(word, r, a + (" " + (b + (")" + tail))));
  }

  lemma FrontBracket(word: string, r: string, behind: string)
    ensures "(" + word + " " + r + " " + behind == "(" + (word + " " + r + " " + behind)
  {
    assert "(" + word + " " + r == "(" + (word + " " + r);
    assert "(" + word + " " + r + " " == "(" + (word + " " + r + " ");
  }

  lemma Regroup(o: string, a: string, b: string, tail: string)
    ensures o + a + " " + b + ")" + tail == o + (a + (" " + (b + (")" + tail))))
  {
    assert o + a + " " + b + ")" + tail == o + a + " " + b + (")" + tail);
    assert o + a + " " + b + (")" + tail) == o + a + " " + (b + (")" + tail));
    assert o + a + " " + (b + (")" + tail)) == o + a + (" " + (b + (")" + tail)));
  }

  /** Parsing the text of any tree consumes exactly that text and returns the tree with its
      ratios rounded to hundredths. */
  lemma {:induction false} NodeRoundTrip(node: LayoutNode, tail: string)
    ensures ParseNode(SerializeNode(node) + tail) == Ok((RoundedTree(node), tail))
    decreases node
  {
    if node.Pane? {
      PaneParses(node.id, tail);
    } else {
      SplitRoundTrip(node, tail);
    }
  }

  lemma {:induction false} SplitRoundTrip(node: LayoutNode, tail: string)
    requires node.Split?
    ensures ParseNode(SerializeNode(node) + tail) == Ok((RoundedTree(node), tail))
    decreases node, 0
  {
    hide ParseHeader, FormatRatio, SerializeNode, TrimStart, Rounded;
    var word := if node.direction == Vertical then "v" else "h";
    var afterSecond := ")" + tail;
    var afterFirst := " " + (SerializeNode(node.second) + afterSecond);
    var behind := SerializeNode(node.first) + afterFirst;
    var text := word + " " + FormatRatio(node.ratio) + " " + behind;
    SplitText(node, tail);
    StartsVisibly(node, tail);
    assert ("(" + text)[1..] == text && ("(" + text)[0] == '(';
    HeaderParses(node.direction, node.ratio, behind);
    StartsVisibly(node.first, afterFirst);
    NodeRoundTrip(node.first, afterFirst);
    StartsVisibly(node.second, afterSecond);
    NodeRoundTrip(node.second, afterSecond);
    ClosingVisible(tail);
  }

  lemma ClosingVisible(tail: string)
    ensures TrimStart(")" + tail) == ")" + tail && (")" + tail)[0] == ')' && (")" + tail)[1..] == tail
  {
  }

  lemma {:induction false} LastCharacter(node: LayoutNode)
    ensures SerializeNode(node) != []
            && SerializeNode(node)[|SerializeNode(node)| - 1] == if node.Pane? then ']' else ')'
  {
    hide FormatRatio, Numeral;
  }

  /** Reading back a saved layout gives the same shape, directions and ids, and the ratios in
      whole hundredths, with the first leaf active. */
  lemma DeserializeSerialized(node: LayoutNode)
    ensures Deserialize(SerializeNode(node)) == Ok(Layout(RoundedTree(node), FirstLeaf(node), None, 80, 24))
  {
    hide SerializeNode, ParseNode, RoundedTree, FirstLeaf;
    var s := SerializeNode(node);
    assert s + [] == s;
    NodeRoundTrip(node, []);
    StartsVisibly(node, []);
    LastCharacter(node);
    assert Trim(s) == s;
    RoundingKeepsIds(node);
  }

  lemma {:induction false} RoundingKeepsIds(node: LayoutNode)
    ensures LeafIds(RoundedTree(node)) == LeafIds(node) && FirstLeaf(RoundedTree(node)) == FirstLeaf(node)
    decreases node
  {
    hide Rounded;
    if node.Split? {
      RoundingKeepsIds(node.first);
      RoundingKeepsIds(node.second);
    }
  }

  /** The tree comes back unchanged exactly when all of its ratios are whole hundredths. */
  lemma RoundTripIsExactIff(node: LayoutNode)
    ensures Deserialize(SerializeNode(node)).Ok?
    ensures Deserialize(SerializeNode(node)).value.root == node <==> AllWholeHundredths(node)
  {
    hide SerializeNode, Deserialize, RoundedTree, AllWholeHundredths, FirstLeaf;
    DeserializeSerialized(node);
    RoundedTreeIff(node);
  }

  // -------------------------------------------------------------------------
  // What may surround a layout
  // -------------------------------------------------------------------------

  predicate AllWhitespace(s: string) {
    forall i :: 0 <= i < |s| ==> IsWhitespace(s[i])
  }

  lemma {:induction false} TrimStartKind(s: string)
    ensures (TrimStart(s) == [] <==> AllWhitespace(s)) && (AllWhitespace(TrimStart(s)) <==> AllWhitespace(s))
  {
    hide IsWhitespace;
    if s != [] {
      assert s == [s[0]] + s[1..];
      TrimStartKind(s[1..]);
      if TrimStart(s) == s { assert !AllWhitespace(s); }
    }
  }

  lemma {:induction false} TrimEndKind(s: string)
    ensures (TrimEnd(s) == [] <==> AllWhitespace(s)) && (AllWhitespace(TrimEnd(s)) <==> AllWhitespace(s))
  {
    hide IsWhitespace;
    if s != [] {
      var n := |s| - 1;
      assert s == s[..n] + [s[n]];
      TrimEndKind(s[..n]);
      if TrimEnd(s) == s { assert !AllWhitespace(s); }
    }
  }

  lemma TrimKind(s: string)
    ensures Trim(s) == [] <==> AllWhitespace(s)
  {
    hide AllWhitespace, TrimStart, TrimEnd;
    TrimStartKind(s);
    TrimEndKind(TrimStart(s));
  }

  lemma {:induction false} TrimEndBehind(s: string, tail: string)
    requires s != [] && !IsWhitespace(s[|s| - 1])
    ensures TrimEnd(s + tail) == s + TrimEnd(tail)
  {
    hide IsWhitespace;
    if tail == [] {
      assert s + tail == s;
    } else {
      var n := |tail| - 1;
      assert (s + tail)[..|s + tail| - 1] == s + tail[..n];
      TrimEndBehind(s, tail[..n]);
    }
  }

  lemma {:induction false} TrimStartBefore(head: string, s: string)
    requires AllWhitespace(head) && TrimStart(s) == s
    ensures TrimStart(head + s) == s
  {
    hide IsWhitespace;
    if head == [] {
      assert head + s == s;
    } else {
      assert (head + s)[1..] == head[1..] + s;
      TrimStartBefore(head[1..], s);
    }
  }

  /** Behind a saved layout anything but whitespace is an error, and whitespace on either side
      makes no difference. */
  lemma OnlyWhitespaceMaySurround(head: string, node: LayoutNode, tail: string)
    requires Trim(head) == []
    ensures Deserialize(head + SerializeNode(node) + tail)
         == if Trim(tail) == [] then Ok(Layout(RoundedTree(node), FirstLeaf(node), None, 80, 24)) else Err(ParseError)
  {
    hide SerializeNode, ParseNode, RoundedTree, FirstLeaf, AllWhitespace, TrimStart, TrimEnd;
    var s := SerializeNode(node);
    TrimKind(head);
    StartsVisibly(node, tail);
    assert head + s + tail == head + (s + tail);
    TrimStartBefore(head, s + tail);
    LastCharacter(node);
    TrimEndBehind(s, tail);
    NodeRoundTrip(node, TrimEnd(tail));
    TrimKind(tail);
    TrimKind(TrimEnd(tail));
    TrimEndKind(tail);
    RoundingKeepsIds(node);
  }
}
