/** UTF-8 (RFC 3629, section 3): the bytes of a scalar value, and the strict decoder
    that Rust's `str::from_utf8` is. */
module Utf8 {
  import opened Common

  const REPLACEMENT: char := '\U{FFFD}'

  function EncodeScalar(c: char): (bytes: seq<byte>)
    ensures 1 <= |bytes| <= 4
  {
    var v := c as int;
    var high := v / 0x40;
    var higher := high / 0x40;
    if v < 0x80 then
      [v]
    else if v < 0x800 then
      [0xC0 + high, 0x80 + v % 0x40]
    else if v < 0x1_0000 then
      [0xE0 + higher, 0x80 + high % 0x40, 0x80 + v % 0x40]
    else
      [0xF0 + higher / 0x40, 0x80 + higher % 0x40, 0x80 + high % 0x40, 0x80 + v % 0x40]
  }

  function Encode(s: string): seq<byte> {
    if s == [] then [] else EncodeScalar(s[0]) + Encode(s[1..])
  }

  predicate IsTail(b: byte) {
    0x80 <= b < 0xC0
  }

  /** The number of bytes the leading byte announces, by its high bits alone; 0 for a
      byte that cannot lead. */
  function Announced(lead: byte): nat {
    if lead < 0x80 then 1
    else if lead < 0xC0 then 0
    else if lead < 0xE0 then 2
    else if lead < 0xF0 then 3
    else if lead < 0xF8 then 4
    else 0
  }

  predicate IsScalar(v: int) {
    0 <= v < 0xD800 || 0xE000 <= v < 0x11_0000
  }

  function Spell2(a: int, b: int): int { (a - 0xC0) * 0x40 + (b - 0x80) }

  function Spell3(a: int, b: int, c: int): int { (a - 0xE0) * 0x1000 + (b - 0x80) * 0x40 + (c - 0x80) }

  function Spell4(a: int, b: int, c: int, d: int): int {
    (a - 0xF0) * 0x4_0000 + (b - 0x80) * 0x1000 + (c - 0x80) * 0x40 + (d - 0x80)
  }

  /** The value the first `Announced` bytes spell, overlong or not; -1 when a tail is
      missing or is not a tail. */
  function Spelled(bytes: seq<byte>): (v: int)
    requires bytes != []
  {
    var n := Announced(bytes[0]);
    if |bytes| < n then -1
    else if n == 1 then bytes[0] as int
    else if n == 2 && IsTail(bytes[1]) then Spell2(bytes[0], bytes[1])
    else if n == 3 && IsTail(bytes[1]) && IsTail(bytes[2]) then Spell3(bytes[0], bytes[1], bytes[2])
    else if n == 4 && IsTail(bytes[1]) && IsTail(bytes[2]) && IsTail(bytes[3]) then
      Spell4(bytes[0], bytes[1], bytes[2], bytes[3])
    else -1
  }

  /** The smallest value that needs `n` bytes. */
  function Shortest(n: nat): int {
    if n == 2 then 0x80 else if n == 3 then 0x800 else if n == 4 then 0x1_0000 else 0
  }

  /** The first scalar of `bytes` and its length; None when the bytes do not start with
      a complete, shortest-form scalar that is not a surrogate. */
  function DecodeFirst(bytes: seq<byte>): (r: Option<(char, nat)>)
    ensures r.Some? ==> 1 <= r.value.1 <= |bytes|
  {
    if bytes == [] then None else
    var n := Announced(bytes[0]);
    var v := Spelled(bytes);
    if IsScalar(v) && Shortest(n) <= v then Some((v as char, n)) else None
  }

  function Decode(bytes: seq<byte>): Option<string> {
    if bytes == [] then Some([]) else
    var first := DecodeFirst(bytes);
    if first.None? then None else
    var rest := Decode(bytes[first.value.1..]);
    if rest.None? then None else Some([first.value.0] + rest.value)
  }

  lemma SpelledScalar(c: char, bytes: seq<byte>)
    requires EncodeScalar(c) <= bytes
    ensures bytes != [] && Announced(bytes[0]) == |EncodeScalar(c)| && Spelled(bytes) == c as int
    ensures Shortest(|EncodeScalar(c)|) <= c as int
  {
    var e := EncodeScalar(c);
    assert forall i :: 0 <= i < |e| ==> bytes[i] == e[i];
    if |e| == 4 {
      assert Spelled(bytes) == Spell4(e[0], e[1], e[2], e[3]);
    }
  }

  lemma DecodeFirstOfScalar(c: char, rest: seq<byte>)
    ensures DecodeFirst(EncodeScalar(c) + rest) == Some((c, |EncodeScalar(c)|))
  {
    SpelledScalar(c, EncodeScalar(c) + rest);
  }

  lemma Respell(a: int, b: int, c: int, d: int)
    requires 0x80 <= b < 0xC0 && 0x80 <= c < 0xC0 && 0x80 <= d < 0xC0
    ensures Spell2(a, b) / 0x40 == a - 0xC0 && Spell2(a, b) % 0x40 == b - 0x80
    ensures Spell3(a, b, c) / 0x40 == Spell2(a - 0x20, b) && Spell3(a, b, c) % 0x40 == c - 0x80
    ensures Spell4(a, b, c, d) / 0x40 == Spell3(a - 0x10, b, c) && Spell4(a, b, c, d) % 0x40 == d - 0x80
  {
  }

  lemma EncodeOfFirst(bytes: seq<byte>)
    requires DecodeFirst(bytes).Some?
    ensures var (c, n) := DecodeFirst(bytes).value;
            bytes[..n] == EncodeScalar(c)
  {
    var (c, n) := DecodeFirst(bytes).value;
    if n == 2 {
      Respell(bytes[0], bytes[1], 0x80, 0x80);
    } else if n == 3 {
      Respell(bytes[0], bytes[1], bytes[2], 0x80);
      Respell(bytes[0] - 0x20, bytes[1], 0x80, 0x80);
    } else if n == 4 {
      Respell(bytes[0], bytes[1], bytes[2], bytes[3]);
      Respell(bytes[0] - 0x10, bytes[1], bytes[2], 0x80);
      Respell(bytes[0] - 0x30, bytes[1], 0x80, 0x80);
    }
  }

  /** Decoding inverts encoding, and a decoded byte string is the encoding of its result. */
  lemma {:induction false} DecodeEncode(s: string, rest: seq<byte>)
    ensures Decode(Encode(s) + rest) ==
            (var r := Decode(rest); if r.None? then None else Some(s + r.value))
  {
    hide EncodeScalar, DecodeFirst;
    if s == [] {
      assert Encode(s) + rest == rest;
      assert Decode(rest).Some? ==> s + Decode(rest).value == Decode(rest).value;
    } else {
      var e := EncodeScalar(s[0]);
      var bytes := Encode(s) + rest;
      assert bytes == e + (Encode(s[1..]) + rest);
      DecodeFirstOfScalar(s[0], Encode(s[1..]) + rest);
      assert bytes[|e|..] == Encode(s[1..]) + rest;
      DecodeEncode(s[1..], rest);
      if Decode(rest).Some? {
        assert s + Decode(rest).value == [s[0]] + (s[1..] + Decode(rest).value);
      }
    }
  }

  lemma {:induction false} EncodeDecode(bytes: seq<byte>)
    ensures Decode(bytes).Some? ==> Encode(Decode(bytes).value) == bytes
  {
    hide EncodeScalar, DecodeFirst;
    if bytes != [] && Decode(bytes).Some? {
      EncodeOfFirst(bytes);
      var (c, n) := DecodeFirst(bytes).value;
      EncodeDecode(bytes[n..]);
      var s := Decode(bytes).value;
      assert s[1..] == Decode(bytes[n..]).value;
      assert bytes == bytes[..n] + bytes[n..];
    }
  }

  /** `bytes` decodes to `s` exactly when they are the encoding of `s`. */
  lemma DecodesExactlyItsEncoding(bytes: seq<byte>, s: string)
    ensures Decode(bytes) == Some(s) <==> bytes == Encode(s)
  {
    EncodeDecode(bytes);
    DecodeEncode(s, []);
    assert Encode(s) + [] == Encode(s);
    assert s + [] == s;
  }
}
