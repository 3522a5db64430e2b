/** Eight bits as a byte and back, by their two hexadecimal digits. */
module Octets {
  import opened Common

  type Hexit = x: int | 0 <= x < 0x10

  function DigitNumber(d: bv4): Hexit {
    d as int
  }

  function DigitBits(n: Hexit): bv4 {
    n as bv4
  }

  function HighDigit(b: bv8): bv4 {
    (b >> 4) as bv4
  }

  function LowDigit(b: bv8): bv4 {
    (b & 0xF) as bv4
  }

  function JoinedDigits(high: bv4, low: bv4): bv8 {
    ((high as bv8) << 4) | (low as bv8)
  }

  /** The byte with the same bits. */
  function Number(b: bv8): byte {
    DigitNumber(HighDigit(b)) as int * 0x10 + DigitNumber(LowDigit(b)) as int
  }

  /** The bits of a byte. */
  function Bits(n: byte): bv8 {
    JoinedDigits(DigitBits(n / 0x10), DigitBits(n % 0x10))
  }

  lemma DigitsOfJoined(high: bv4, low: bv4)
    ensures HighDigit(JoinedDigits(high, low)) == high && LowDigit(JoinedDigits(high, low)) == low
  {
  }

  lemma JoinedOfDigits(b: bv8)
    ensures JoinedDigits(HighDigit(b), LowDigit(b)) == b
  {
  }

  lemma DigitInverse(n: Hexit, d: bv4)
    ensures DigitNumber(DigitBits(n)) == n && DigitBits(DigitNumber(d)) == d
  {
  }

  lemma NumberInverse(b: bv8, n: byte)
    ensures Number(Bits(n)) == n && Bits(Number(b)) == b
  {
    hide JoinedDigits, DigitNumber, DigitBits, HighDigit, LowDigit;
    DigitInverse(n / 0x10, HighDigit(b));
    DigitInverse(n % 0x10, LowDigit(b));
    DigitsOfJoined(DigitBits(n / 0x10), DigitBits(n % 0x10));
    JoinedOfDigits(b);
  }
}
