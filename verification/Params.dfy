/** The CSI/DCS parameter accumulator (ECMA-48, section 5.4.2). */
module Params {
  import opened Common
  import opened Decimal

  const MAX_PARAMS: nat := 16
  const U16_MAX: int := 65535
  const SEMICOLON: byte := 0x3B

  /** The accumulator's abstract value: the completed values, the number being read, and
      whether a digit or separator was seen since the last reset. */
  datatype Accumulator = Accumulator(values: seq<u16>, current: u16, hasCurrent: bool) {
    predicate Valid() { |values| <= MAX_PARAMS }
  }

  const EMPTY: Accumulator := Accumulator([], 0, false)

  function Saturate(n: nat): u16 {
    if n <= U16_MAX then n else U16_MAX
  }

  function AddDigit(p: Accumulator, b: byte): Accumulator {
    if !IsDigit(b) then p
    else p.(current := Saturate(p.current as int * 10 + (b as int - 0x30)), hasCurrent := true)
  }

  function Push(p: Accumulator): Accumulator {
    if |p.values| < MAX_PARAMS then p.(values := p.values + [p.current]) else p
  }

  function FinishParam(p: Accumulator): Accumulator {
    Push(p).(current := 0, hasCurrent := true)
  }

  function Finalize(p: Accumulator): Accumulator {
    if p.hasCurrent then Push(p) else p
  }

  /** One parameter byte: a separator or a digit. */
  function Param(p: Accumulator, b: byte): Accumulator {
    if b == SEMICOLON then FinishParam(p) else AddDigit(p, b)
  }

  function ParamAll(p: Accumulator, s: seq<byte>): Accumulator
    decreases s
  {
    if s == [] then p else ParamAll(Param(p, s[0]), s[1..])
  }

  // -------------------------------------------------------------------------
  // What a parameter string denotes
  // -------------------------------------------------------------------------

  predicate IsParamByte(b: byte) {
    IsDigit(b) || b == SEMICOLON
  }

  predicate IsParamString(s: seq<byte>) {
    forall i :: 0 <= i < |s| ==> IsParamByte(s[i])
  }

  /** The index of the first semicolon, or |s|. */
  function FieldEnd(s: seq<byte>): (n: nat)
    ensures n <= |s|
    ensures forall i :: 0 <= i < n ==> s[i] != SEMICOLON
    ensures n < |s| ==> s[n] == SEMICOLON
  {
    if s == [] || s[0] == SEMICOLON then 0 else 1 + FieldEnd(s[1..])
  }

  /** The numbers of the semicolon-separated fields of `s`, an empty field counting as 0
      and values above 65535 as 65535. */
  function Fields(s: seq<byte>): seq<u16>
    requires IsParamString(s)
    decreases |s|
  {
    var n := FieldEnd(s);
    [Saturate(Value(s[..n]))] + (if n == |s| then [] else Fields(s[n + 1..]))
  }

  function Take16<T>(s: seq<T>): seq<T> {
    if |s| <= MAX_PARAMS then s else s[..MAX_PARAMS]
  }

  lemma {:induction false} ParamAllConcat(p: Accumulator, s: seq<byte>, t: seq<byte>)
    ensures ParamAll(p, s + t) == ParamAll(ParamAll(p, s), t)
    decreases s
  {
    if s == [] {
      assert s + t == t;
    } else {
      assert (s + t)[1..] == s[1..] + t;
      ParamAllConcat(Param(p, s[0]), s[1..], t);
    }
  }

  /** Reading one field leaves its saturated value: saturating at every digit is the same
      as saturating once at the end. */
  lemma {:induction false} DigitsAccumulate(p: Accumulator, ds: seq<byte>)
    requires AllDigits(ds) && p.current == 0
    ensures ParamAll(p, ds) == p.(current := Saturate(Value(ds)), hasCurrent := p.hasCurrent || ds != [])
  {
    if ds != [] {
      var n := |ds| - 1;
      assert ds == ds[..n] + [ds[n]];
      ParamAllConcat(p, ds[..n], [ds[n]]);
      DigitsAccumulate(p, ds[..n]);
      var q := ParamAll(p, ds[..n]);
      assert ParamAll(q, [ds[n]]) == ParamAll(Param(q, ds[n]), []);
    }
  }

  lemma ParamAllFromField(p: Accumulator, s: seq<byte>)
    requires FieldEnd(s) < |s|
    ensures var n := FieldEnd(s);
            ParamAll(p, s) == ParamAll(FinishParam(ParamAll(p, s[..n])), s[n + 1..])
  {
    var n := FieldEnd(s);
    assert s == s[..n] + s[n..];
    ParamAllConcat(p, s[..n], s[n..]);
    assert s[n..][1..] == s[n + 1..];
  }

  lemma FieldIsDigits(s: seq<byte>)
    requires IsParamString(s)
    ensures AllDigits(s[..FieldEnd(s)])
  {
    assert forall i :: 0 <= i < |s| ==> IsParamByte(s[i]);
  }

  lemma Take16OfShort(vs: seq<u16>)
    ensures |vs| <= MAX_PARAMS ==> Take16(vs) == vs
  {
  }

  lemma PushKeepsFirst16(p: Accumulator, rest: seq<u16>)
    requires p.Valid()
    ensures Push(p).Valid()
    ensures Take16(Push(p).values + rest) == Take16(p.values + ([p.current] + rest))
  {
    assert p.values + ([p.current] + rest) == p.values + [p.current] + rest;
  }

  lemma {:induction false} FieldsAccumulate(p: Accumulator, s: seq<byte>)
    requires p.Valid() && p.current == 0 && IsParamString(s)
    requires s != [] || p.hasCurrent
    ensures Finalize(ParamAll(p, s)).values == Take16(p.values + Fields(s))
    decreases |s|
  {
    hide Value, AddDigit, Saturate, Push, Take16, ParamAll, AllDigits, IsDigit;
    var n := FieldEnd(s);
    var field := s[..n];
    assert AllDigits(field) by { FieldIsDigits(s); }
    DigitsAccumulate(p, field);
    var v := Saturate(Value(field));
    var q := p.(current := v, hasCurrent := p.hasCurrent || field != []);
    if n == |s| {
      assert field == s;
      PushKeepsFirst16(q, []);
      assert Push(q).values + [] == Push(q).values;
      assert Take16(Push(q).values) == Push(q).values by { Take16OfShort(Push(q).values); }
      assert [v] + [] == [v];
    } else {
      var rest := s[n + 1..];
      ParamAllFromField(p, s);
      PushKeepsFirst16(q, Fields(rest));
      FieldsAccumulate(FinishParam(q), rest);
    }
  }

  /** After any string of digits and semicolons the parameters are its first sixteen
      fields; the empty string gives none. */
  lemma ParamStringDenotesItsFields(s: seq<byte>)
    requires IsParamString(s)
    ensures Finalize(ParamAll(EMPTY, s)).values == if s == [] then [] else Take16(Fields(s))
  {
    if s != [] {
      FieldsAccumulate(EMPTY, s);
      assert [] + Fields(s) == Fields(s);
    }
  }

  // -------------------------------------------------------------------------
  // Printing parameters
  // -------------------------------------------------------------------------

  function Join(ps: seq<nat>): (s: seq<byte>)
    ensures IsParamString(s)
  {
    if ps == [] then []
    else if |ps| == 1 then Digits(ps[0])
    else Digits(ps[0]) + [SEMICOLON] + Join(ps[1..])
  }

  function SaturateAll(ps: seq<nat>): (r: seq<u16>)
    ensures |r| == |ps|
    ensures forall i :: 0 <= i < |ps| ==> r[i] == Saturate(ps[i])
  {
    seq(|ps|, i requires 0 <= i < |ps| => Saturate(ps[i]))
  }

  lemma FieldEndOfDigits(ds: seq<byte>, rest: seq<byte>)
    requires AllDigits(ds)
    ensures FieldEnd(ds) == |ds|
    ensures FieldEnd(ds + [SEMICOLON] + rest) == |ds|
  {
    var s := ds + [SEMICOLON] + rest;
    assert forall i :: 0 <= i < |ds| ==> s[i] == ds[i];
    assert s[|ds|] == SEMICOLON;
  }

  lemma FieldsCons(ds: seq<byte>, rest: seq<byte>)
    requires AllDigits(ds) && IsParamString(rest)
    ensures IsParamString(ds + [SEMICOLON] + rest)
    ensures Fields(ds + [SEMICOLON] + rest) == [Saturate(Value(ds))] + Fields(rest)
  {
    hide Value, Saturate;
    FieldEndOfDigits(ds, rest);
    var s := ds + [SEMICOLON] + rest;
    assert s[..|ds|] == ds && s[|ds| + 1..] == rest;
  }

  lemma FieldsOne(ds: seq<byte>)
    requires AllDigits(ds)
    ensures IsParamString(ds) && Fields(ds) == [Saturate(Value(ds))]
  {
    hide Value, Saturate;
    FieldEndOfDigits(ds, []);
    assert ds[..|ds|] == ds;
  }

  lemma {:induction false} FieldsOfJoin(ps: seq<nat>)
    requires ps != []
    ensures Fields(Join(ps)) == SaturateAll(ps)
  {
    hide Digits, Value, Fields, Saturate, IsParamString;
    ValueOfDigits(ps[0]);
    var ds := Digits(ps[0]);
    if |ps| == 1 {
      FieldsOne(ds);
    } else {
      FieldsCons(ds, Join(ps[1..]));
      FieldsOfJoin(ps[1..]);
      assert SaturateAll(ps) == [Saturate(ps[0])] + SaturateAll(ps[1..]);
    }
  }

  /** Printing at most sixteen parameters and reading them back is the identity, up to
      saturation at 65535. */
  lemma PrintedParamsReadBack(ps: seq<nat>)
    requires |ps| <= MAX_PARAMS
    ensures Finalize(ParamAll(EMPTY, Join(ps))).values == SaturateAll(ps)
    ensures (forall i :: 0 <= i < |ps| ==> ps[i] <= U16_MAX) ==> SaturateAll(ps) == ps
  {
    hide Digits, Fields, ParamAll, Finalize;
    ParamStringDenotesItsFields(Join(ps));
    if ps != [] {
      FieldsOfJoin(ps);
      assert Join(ps) != [];
    }
    if forall i :: 0 <= i < |ps| ==> ps[i] <= U16_MAX {
      assert forall i :: 0 <= i < |ps| ==> SaturateAll(ps)[i] == ps[i];
    }
  }
}

/** The accumulator as the parser holds it: a fixed array and a count. */
module ParamBuffers {
  import opened Common
  import opened Params

  class ParamBuffer {
    const values: array<u16>
    var count: nat
    var current: int
    var hasCurrent: bool

    ghost predicate Valid()
      reads this
    {
      values.Length == MAX_PARAMS && count <= MAX_PARAMS && 0 <= current <= U16_MAX
    }

    ghost function State(): (p: Accumulator)
      requires Valid()
      reads this, values
      ensures p.Valid()
    {
      Accumulator(values[..count], current, hasCurrent)
    }

    constructor ()
      ensures Valid() && fresh(values)
      ensures State() == EMPTY
    {
      values := new u16[MAX_PARAMS](_ => 0);
      count, current, hasCurrent := 0, 0, false;
    }

    method Clear()
      requires Valid()
      modifies this
      ensures Valid() && State() == EMPTY
    {
      count, current, hasCurrent := 0, 0, false;
    }

    method AddDigit(b: byte)
      requires Valid()
      modifies this
      ensures Valid() && State() == Params.AddDigit(old(State()), b)
    {
      var digit := (b as int - 0x30) % 0x100;
      if digit > 9 {
        return;
      }
      hasCurrent := true;
      current := Min(current * 10 + digit, U16_MAX);
    }

    method FinishParam()
      requires Valid()
      modifies this, values
      ensures Valid() && State() == Params.FinishParam(old(State()))
    {
      if count < MAX_PARAMS {
        values[count] := current;
        count := count + 1;
      }
      current := 0;
      hasCurrent := true;
    }

    method Finalize()
      requires Valid()
      modifies this, values
      ensures Valid() && State() == Params.Finalize(old(State()))
    {
      if hasCurrent && count < MAX_PARAMS {
        values[count] := current;
        count := count + 1;
      }
    }

    /** The completed values. */
    method AsSlice() returns (ps: seq<u16>)
      requires Valid()
      ensures ps == State().values
    {
      ps := values[..count];
    }
  }
}
