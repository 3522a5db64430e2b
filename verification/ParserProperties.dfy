/** What whole byte strings do to the parser: UTF-8 text prints itself, and a control
    sequence dispatches its parameters from any state. */
module ParserProperties {
  import opened Common
  import opened ParserTable
  import opened Parser
  import P = Params
  import Utf8

  /** However a stream is cut into calls, the machine and its events are the same. */
  lemma {:induction false} RunConcat(m: Machine, a: seq<byte>, b: seq<byte>)
    requires m.Valid()
    ensures var (m1, es1) := Run(m, a);
            var (m2, es2) := Run(m1, b);
            Run(m, a + b) == (m2, es1 + es2)
    decreases a
  {
    hide ProcessByte;
    if a == [] {
      assert a + b == b;
      assert [] + Run(m, b).1 == Run(m, b).1;
    } else {
      var m1 := ProcessByte(m, a[0]).0;
      assert (a + b)[0] == a[0] && (a + b)[1..] == a[1..] + b;
      RunConcat(m1, a[1..], b);
      var es1, ea, eb := ProcessByte(m, a[0]).1, Run(m1, a[1..]).1, Run(Run(m1, a[1..]).0, b).1;
      assert es1 + (ea + eb) == (es1 + ea) + eb;
    }
  }

  lemma RunThen(m: Machine, a: seq<byte>, m1: Machine, es1: seq<Event>, b: seq<byte>, m2: Machine, es2: seq<Event>)
    requires m.Valid() && m1.Valid()
    requires Run(m, a) == (m1, es1) && Run(m1, b) == (m2, es2)
    ensures Run(m, a + b) == (m2, es1 + es2)
  {
    hide *;
    RunConcat(m, a, b);
  }

  lemma RunOne(m: Machine, b: byte)
    requires m.Valid()
    ensures Run(m, [b]) == ProcessByte(m, b)
  {
    hide ProcessByte;
    var (m1, es1) := ProcessByte(m, b);
    assert [b][1..] == [];
    assert Run(m1, []) == (m1, []);
    assert es1 + [] == es1;
  }

  // -------------------------------------------------------------------------
  // UTF-8 (RFC 3629, section 3)
  // -------------------------------------------------------------------------

  /** A scalar the parser prints: not a C0 control and not DEL. */
  predicate IsPrintable(c: char) {
    0x20 <= c as int <= 0x7E || 0x80 <= c as int
  }

  predicate AllPrintable(s: string) {
    forall i :: 0 <= i < |s| ==> IsPrintable(s[i])
  }

  lemma AsciiPrints(m: Machine, c: char)
    requires m.Valid() && m.Idle() && 0x20 <= c as int <= 0x7E
    ensures Run(m, Utf8.EncodeScalar(c)) == (m, [Printed(c)])
  {
    var b: byte := c as int;
    assert Utf8.EncodeScalar(c) == [b];
    AsciiByte(m, b);
    hide *;
    RunOne(m, b);
  }

  lemma AsciiByte(m: Machine, b: byte)
    requires m.Valid() && m.Idle() && 0x20 <= b <= 0x7E
    ensures ProcessByte(m, b) == (m, [Printed(b as char)])
  {
  }

  /** Tail bytes pile up until the announced length is reached. */
  lemma TailWaits(m: Machine, b: byte)
    requires m.Valid() && m.state == Ground && m.pending != [] && Utf8.IsTail(b) && |m.pending| + 1 < m.expected
    ensures ProcessByte(m, b) == (m.(pending := m.pending + [b]), [])
  {
  }

  lemma {:induction false} TailsComplete(m: Machine, tails: seq<byte>)
    requires m.Valid() && m.state == Ground && m.pending != [] && |m.pending| + |tails| == m.expected
    requires forall i :: 0 <= i < |tails| ==> Utf8.IsTail(tails[i])
    ensures Run(m, tails) == (Flushed(m), FlushEvents(m.pending + tails))
    decreases tails
  {
    hide FlushEvents;
    var b := tails[0];
    if |tails| == 1 {
      RunOne(m, b);
      assert tails == [b];
    } else {
      TailWaits(m, b);
      var m' := m.(pending := m.pending + [b]);
      TailsComplete(m', tails[1..]);
      assert m'.pending + tails[1..] == m.pending + tails;
      assert [] + FlushEvents(m.pending + tails) == FlushEvents(m.pending + tails);
    }
  }

  lemma FlushOfScalar(c: char)
    ensures FlushEvents(Utf8.EncodeScalar(c)) == [Printed(c)]
  {
    Utf8.DecodeFirstOfScalar(c, []);
    var e := Utf8.EncodeScalar(c);
    assert e + [] == e && e[|e|..] == [];
    assert Utf8.Decode(e) == Some([c] + []);
    assert [c] + [] == [c];
    assert Prints([c]) == [Printed(c)];
  }

  lemma MultibyteShape(c: char)
    requires 0x80 <= c as int
    ensures var e := Utf8.EncodeScalar(c);
            e[0] >= 0x80 && Utf8.Announced(e[0]) == |e| >= 2
            && forall i :: 1 <= i < |e| ==> Utf8.IsTail(e[i])
  {
  }

  lemma MultibytePrints(m: Machine, c: char)
    requires m.Valid() && m.Idle() && 0x80 <= c as int
    ensures Run(m, Utf8.EncodeScalar(c)) == (m, [Printed(c)])
  {
    hide Utf8.EncodeScalar, FlushEvents;
    MultibyteShape(c);
    var e := Utf8.EncodeScalar(c);
    var m1 := m.(pending := [e[0]], expected := |e|);
    assert ProcessByte(m, e[0]) == (m1, []);
    TailsComplete(m1, e[1..]);
    assert [e[0]] + e[1..] == e;
    FlushOfScalar(c);
    assert [] + [Printed(c)] == [Printed(c)];
  }

  lemma NothingRuns(m: Machine)
    requires m.Valid()
    ensures Run(m, []) == (m, [])
  {
  }

  /** Feeding the encoding of printable text prints that text and leaves the machine as
      it was. */
  lemma {:induction false} TextPrintsItself(m: Machine, s: string)
    requires m.Valid() && m.Idle() && AllPrintable(s)
    ensures Run(m, Utf8.Encode(s)) == (m, Prints(s))
    decreases s
  {
    hide Utf8.EncodeScalar, ProcessByte, Run;
    if s == [] {
      NothingRuns(m);
    } else {
      var c := s[0];
      if c as int < 0x80 { AsciiPrints(m, c); } else { MultibytePrints(m, c); }
      RunConcat(m, Utf8.EncodeScalar(c), Utf8.Encode(s[1..]));
      TextPrintsItself(m, s[1..]);
      assert Prints(s) == [Printed(c)] + Prints(s[1..]);
    }
  }

  lemma IncompletePrintsReplacement(m: Machine)
    requires m.Valid() && m.pending != []
    ensures FlushEvents(m.pending) == [Printed(Utf8.REPLACEMENT)]
  {
    assert Utf8.Spelled(m.pending) == -1;
    assert Utf8.DecodeFirst(m.pending).None?;
  }

  lemma CutByByte(m: Machine, b: byte)
    requires m.Valid() && m.pending != [] && !Utf8.IsTail(b)
    ensures var (m', es) := ProcessByte(Flushed(m), b);
            ProcessByte(m, b) == (m', [Printed(Utf8.REPLACEMENT)] + es)
  {
    hide FlushEvents, ProcessTable;
    IncompletePrintsReplacement(m);
  }

  /** A sequence cut short by anything but its continuation prints one replacement character,
      and from there on the parser acts as if the sequence had never begun. */
  lemma CutShort(m: Machine, input: seq<byte>)
    requires m.Valid() && m.pending != [] && input != [] && !Utf8.IsTail(input[0])
    ensures var (m', es) := Run(Flushed(m), input);
            Run(m, input) == (m', [Printed(Utf8.REPLACEMENT)] + es)
  {
    hide ProcessByte;
    CutByByte(m, input[0]);
    var m1, es1 := ProcessByte(Flushed(m), input[0]).0, ProcessByte(Flushed(m), input[0]).1;
    var es2 := Run(m1, input[1..]).1;
    assert ([Printed(Utf8.REPLACEMENT)] + es1) + es2 == [Printed(Utf8.REPLACEMENT)] + (es1 + es2);
  }

  /** No text that follows a cut sequence is lost or garbled: UTF-8 synchronizes itself at the
      next character. */
  lemma TextAfterACut(m: Machine, s: string)
    requires m.Valid() && m.pending != [] && s != [] && AllPrintable(s)
    ensures Run(m, Utf8.Encode(s)) == (Flushed(m), [Printed(Utf8.REPLACEMENT)] + Prints(s))
  {
    hide ProcessByte, Run;
    var e := Utf8.EncodeScalar(s[0]);
    assert e != [] && !Utf8.IsTail(e[0]) by {
      if s[0] as int >= 0x80 { MultibyteShape(s[0]); }
    }
    assert Utf8.Encode(s)[0] == e[0];
    CutShort(m, Utf8.Encode(s));
    TextPrintsItself(Flushed(m), s);
  }

  // -------------------------------------------------------------------------
  // Control sequences (ECMA-48, section 5.4)
  // -------------------------------------------------------------------------

  /** What is printed when a control byte cuts off a pending UTF-8 sequence. */
  function Interrupted(m: Machine): seq<Event> {
    if m.pending == [] then [] else FlushEvents(m.pending)
  }

  lemma IdleInterruptsNothing(m: Machine)
    requires m.Idle()
    ensures Interrupted(m) == []
  {
  }

  /** ESC starts a new sequence from every state. */
  lemma EscapeFromAnywhere(m: Machine)
    requires m.Valid()
    ensures var (m', es) := ProcessByte(m, ESC);
            m'.state == Escape && m'.pending == [] && es == Interrupted(m)
  {
    assert FlushEvents(m.pending) + [] == FlushEvents(m.pending);
  }

  lemma BracketEntersCsi(m: Machine)
    requires m.Valid() && m.state == Escape
    ensures var (m', es) := ProcessByte(m, BRACKET);
            m'.state == CsiEntry && m'.pending == [] && es == [] && m'.params == P.EMPTY && m'.intermediates == []
  {
  }

  /** Parameter bytes accumulate silently. */
  lemma ParamByteAccumulates(m: Machine, b: byte)
    requires m.Valid() && m.pending == [] && m.state in {CsiEntry, CsiParam} && P.IsParamByte(b)
    ensures ProcessByte(m, b) == (m.(state := CsiParam, params := P.Param(m.params, b)), [])
  {
    hide P.Param;
  }

  lemma {:induction false} ParamBytesAccumulate(m: Machine, s: seq<byte>)
    requires m.Valid() && m.pending == [] && m.state in {CsiEntry, CsiParam} && P.IsParamString(s)
    ensures var (m', es) := Run(m, s);
            es == [] && m'.state in {CsiEntry, CsiParam} && m'.pending == []
            && m'.params == P.ParamAll(m.params, s) && m'.intermediates == m.intermediates
    decreases s
  {
    hide P.Param, ProcessByte;
    if s != [] {
      assert P.IsParamByte(s[0]);
      ParamByteAccumulates(m, s[0]);
      ParamBytesAccumulate(ProcessByte(m, s[0]).0, s[1..]);
    }
  }

  lemma FinalDispatches(m: Machine, final: byte)
    requires m.Valid() && m.pending == [] && m.state in {CsiEntry, CsiParam} && IsFinal(final)
    ensures var (m', es) := ProcessByte(m, final);
            m'.Idle() && es == [Csi(P.Finalize(m.params).values, m.intermediates, final)]
  {
  }

  function CsiBytes(private: bool, s: seq<byte>, final: byte): seq<byte> {
    [ESC, BRACKET] + Marker(private) + s + [final]
  }

  lemma EscapeBracket(m: Machine)
    requires m.Valid()
    ensures var (m', es) := Run(m, [ESC, BRACKET]);
            es == Interrupted(m) && m'.state == CsiEntry && m'.pending == []
            && m'.params == P.EMPTY && m'.intermediates == []
  {
    hide *;
    EscapeFromAnywhere(m);
    var (m1, es1) := ProcessByte(m, ESC);
    BracketEntersCsi(m1);
    var (m2, es2) := ProcessByte(m1, BRACKET);
    RunOne(m, ESC);
    RunOne(m1, BRACKET);
    RunThen(m, [ESC], m1, es1, [BRACKET], m2, es2);
    assert [ESC] + [BRACKET] == [ESC, BRACKET];
    assert es1 + [] == es1;
  }

  lemma QuestionMarkCollects(m: Machine)
    requires m.Valid() && m.pending == [] && m.state == CsiEntry && m.intermediates == []
    ensures ProcessByte(m, 0x3F) == (m.(state := CsiParam, intermediates := [0x3F]), [])
  {
    assert Collected(m, 0x3F).intermediates == [0x3F];
  }

  function Marker(private: bool): seq<byte> {
    if private then [0x3F] else []
  }

  /** The machine after ESC [ and, for a private sequence, '?'. */
  lemma Introducer(m: Machine, private: bool)
    requires m.Valid()
    ensures var (m', es) := Run(m, [ESC, BRACKET] + Marker(private));
            es == Interrupted(m) && m'.state in {CsiEntry, CsiParam} && m'.pending == []
            && m'.params == P.EMPTY && m'.intermediates == Marker(private)
  {
    hide FlushEvents, ProcessByte, Run;
    EscapeBracket(m);
    var (m1, es1) := Run(m, [ESC, BRACKET]);
    if private {
      QuestionMarkCollects(m1);
      RunOne(m1, 0x3F);
      var (m2, es2) := ProcessByte(m1, 0x3F);
      RunThen(m, [ESC, BRACKET], m1, es1, [0x3F], m2, es2);
      assert es1 + [] == es1;
    } else {
      assert [ESC, BRACKET] + [] == [ESC, BRACKET];
    }
  }

  /** A control sequence, from any state, first prints what it interrupts and then makes
      exactly one dispatch, whose parameters are the first sixteen fields of its parameter
      string. */
  lemma ControlSequenceDispatches(m: Machine, private: bool, s: seq<byte>, final: byte)
    requires m.Valid() && P.IsParamString(s) && IsFinal(final)
    ensures var (m', es) := Run(m, CsiBytes(private, s, final));
            m'.Idle()
            && es == Interrupted(m)
                     + [Csi(if s == [] then [] else P.Take16(P.Fields(s)), Marker(private), final)]
  {
    hide P.Fields, FlushEvents, ProcessByte, Run, P.Finalize, P.ParamAll, Marker, Interrupted;
    var intro := [ESC, BRACKET] + Marker(private);
    Introducer(m, private);
    var (m1, es1) := Run(m, intro);
    ParamBytesAccumulate(m1, s);
    P.ParamStringDenotesItsFields(s);
    var m2 := Run(m1, s).0;
    FinalDispatches(m2, final);
    RunOne(m2, final);
    var (m3, es3) := ProcessByte(m2, final);
    RunThen(m1, s, m2, [], [final], m3, es3);
    assert [] + es3 == es3;
    RunThen(m, intro, m1, es1, s + [final], m3, es3);
    assert CsiBytes(private, s, final) == intro + (s + [final]);
  }
}
