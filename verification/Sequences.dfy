/** What sequences other than text and control sequences parse to: operating-system commands,
    device-control strings, ignored strings, escape sequences, and controls and cancellation in
    the middle of any of them (ECMA-48, sections 5.5 and 5.6). */
module Sequences {
  import opened Common
  import opened ParserTable
  import opened Parser
  import opened ParserProperties
  import P = Params

  // -------------------------------------------------------------------------
  // Fields of a string
  // -------------------------------------------------------------------------

  /** The pieces between the semicolons. */
  function Split(s: seq<byte>): (fields: seq<seq<byte>>)
    ensures fields != []
  {
    if s == [] then [[]]
    else
      var rest := Split(s[1..]);
      if s[0] == P.SEMICOLON then [[]] + rest else [[s[0]] + rest[0]] + rest[1..]
  }

  function Joined(fields: seq<seq<byte>>): seq<byte>
    requires fields != []
  {
    if |fields| == 1 then fields[0] else fields[0] + [P.SEMICOLON] + Joined(fields[1..])
  }

  predicate NoSemicolons(fields: seq<seq<byte>>) {
    forall i :: 0 <= i < |fields| ==> P.SEMICOLON !in fields[i]
  }

  lemma {:induction false} SplitField(field: seq<byte>, s: seq<byte>)
    requires P.SEMICOLON !in field
    ensures Split(field + s) == [field + Split(s)[0]] + Split(s)[1..]
    decreases field
  {
    if field == [] {
      assert field + s == s && [] + Split(s)[0] == Split(s)[0];
    } else {
      assert (field + s)[1..] == field[1..] + s;
      SplitField(field[1..], s);
      assert [field[0]] + (field[1..] + Split(s)[0]) == field + Split(s)[0];
    }
  }

  lemma {:induction false} SplitJoined(fields: seq<seq<byte>>)
    requires fields != [] && NoSemicolons(fields)
    ensures Split(Joined(fields)) == fields
    decreases fields
  {
    if |fields| == 1 {
      SplitField(fields[0], []);
      assert fields[0] + [] == fields[0];
    } else {
      var rest := [P.SEMICOLON] + Joined(fields[1..]);
      assert rest[1..] == Joined(fields[1..]);
      SplitJoined(fields[1..]);
      SplitField(fields[0], rest);
      assert fields[0] + [P.SEMICOLON] + Joined(fields[1..]) == fields[0] + rest;
      assert fields[0] + [] == fields[0];
    }
  }

  /** The pieces of a buffer that is cut at the recorded splits. */
  function Pieces(osc: seq<byte>, splits: seq<nat>, start: nat): (r: seq<seq<byte>>)
    requires start <= |osc|
    requires forall i :: 0 <= i < |splits| ==> start <= splits[i] <= |osc|
    requires forall i, j :: 0 <= i < j < |splits| ==> splits[i] <= splits[j]
    ensures r != []
    decreases splits
  {
    if splits == [] then [osc[start..]]
    else [osc[start..splits[0]]] + Pieces(osc, splits[1..], splits[0])
  }

  function PiecesOf(m: Machine): seq<seq<byte>>
    requires m.Valid()
  {
    Pieces(m.osc, m.oscSplits, 0)
  }

  /** At most sixteen of them are reported. */
  lemma {:induction false} FieldsArePieces(osc: seq<byte>, splits: seq<nat>, start: nat, taken: nat)
    requires start <= |osc| && taken <= 16
    requires forall i :: 0 <= i < |splits| ==> start <= splits[i] <= |osc|
    requires forall i, j :: 0 <= i < j < |splits| ==> splits[i] <= splits[j]
    ensures var pieces := Pieces(osc, splits, start);
            OscFields(osc, splits, start, taken) == pieces[..Min(|pieces|, 16 - taken)]
    decreases splits
  {
    if taken < 16 && splits != [] {
      FieldsArePieces(osc, splits[1..], splits[0], taken + 1);
    }
  }

  lemma {:induction false} SplitEndsPiece(osc: seq<byte>, splits: seq<nat>, start: nat)
    requires start <= |osc|
    requires forall i :: 0 <= i < |splits| ==> start <= splits[i] <= |osc|
    requires forall i, j :: 0 <= i < j < |splits| ==> splits[i] <= splits[j]
    ensures Pieces(osc, splits + [|osc|], start) == Pieces(osc, splits, start) + [[]]
    decreases splits
  {
    if splits == [] {
      assert splits + [|osc|] == [|osc|] && [|osc|][1..] == splits;
      assert osc[start..|osc|] == osc[start..] && osc[|osc|..] == [];
    } else {
      assert (splits + [|osc|])[1..] == splits[1..] + [|osc|];
      SplitEndsPiece(osc, splits[1..], splits[0]);
    }
  }

  lemma {:induction false} ByteExtendsPiece(osc: seq<byte>, splits: seq<nat>, start: nat, b: byte)
    requires start <= |osc|
    requires forall i :: 0 <= i < |splits| ==> start <= splits[i] <= |osc|
    requires forall i, j :: 0 <= i < j < |splits| ==> splits[i] <= splits[j]
    ensures var pieces := Pieces(osc, splits, start);
            Pieces(osc + [b], splits, start) == pieces[|pieces| - 1 := pieces[|pieces| - 1] + [b]]
    decreases splits
  {
    if splits == [] {
      assert (osc + [b])[start..] == osc[start..] + [b];
    } else {
      ByteExtendsPiece(osc, splits[1..], splits[0], b);
      assert (osc + [b])[start..splits[0]] == osc[start..splits[0]];
    }
  }

  // -------------------------------------------------------------------------
  // Operating-system commands
  // -------------------------------------------------------------------------

  const OSC: byte := 0x5D
  const BEL: byte := 0x07

  predicate IsKept(b: byte) {
    In(b, 0x20, 0x7E) || In(b, 0xA0, 0xFF)
  }

  /** A byte that neither ends the string nor is acted on elsewhere. */
  predicate IsInside(b: byte) {
    b != BEL && b != ST && b != CAN && b != SUB && b != ESC
  }

  predicate AllInside(s: seq<byte>) {
    forall i :: 0 <= i < |s| ==> IsInside(s[i])
  }

  /** The bytes of the string that are kept. */
  function Kept(s: seq<byte>): seq<byte> {
    if s == [] then [] else (if IsKept(s[0]) then [s[0]] else []) + Kept(s[1..])
  }

  /** How many of them are not separators. */
  function Content(s: seq<byte>): nat {
    if s == [] then 0 else (if s[0] == P.SEMICOLON then 0 else 1) + Content(s[1..])
  }

  lemma OscBegins(m: Machine)
    requires m.Valid()
    ensures var (m', es) := Run(m, [ESC, OSC]);
            m'.Valid() && m'.state == OscString && m'.pending == [] && m'.osc == [] && m'.oscSplits == []
            && es == Interrupted(m)
  {
    hide *;
    EscapeFromAnywhere(m);
    var (m1, es1) := ProcessByte(m, ESC);
    BracketOpensOsc(m1);
    var (m2, es2) := ProcessByte(m1, OSC);
    RunOne(m, ESC);
    RunOne(m1, OSC);
    RunThen(m, [ESC], m1, es1, [OSC], m2, es2);
    assert [ESC] + [OSC] == [ESC, OSC];
    assert es1 + [] == es1;
  }

  lemma BracketOpensOsc(m: Machine)
    requires m.Valid() && m.state == Escape
    ensures var (m', es) := ProcessByte(m, OSC);
            m'.state == OscString && m'.pending == [] && m'.osc == [] && m'.oscSplits == [] && es == []
  {
  }

  /** One byte inside the string: a separator, content, or nothing. */
  lemma OscByte(m: Machine, b: byte)
    requires m.Valid() && m.state == OscString && m.pending == [] && IsInside(b)
    requires IsKept(b) && b != P.SEMICOLON ==> |m.osc| < MAX_OSC_LEN
    ensures ProcessByte(m, b)
         == (if !IsKept(b) then m
             else if b == P.SEMICOLON then m.(oscSplits := m.oscSplits + [|m.osc|])
             else m.(osc := m.osc + [b]), [])
  {
  }

  lemma {:induction false} OscBytes(m: Machine, s: seq<byte>)
    requires m.Valid() && m.state == OscString && m.pending == [] && AllInside(s)
    requires |m.osc| + Content(Kept(s)) <= MAX_OSC_LEN
    ensures var (m', es) := Run(m, s);
            && m'.state == OscString && m'.pending == [] && es == []
            && PiecesOf(m') == Extended(PiecesOf(m), Kept(s))
    decreases s
  {
    hide ProcessByte;
    if s == [] {
      ExtendedByNothing(PiecesOf(m));
    } else {
      var b, rest := s[0], s[1..];
      assert IsInside(b);
      OscByte(m, b);
      var m1 := ProcessByte(m, b).0;
      if !IsKept(b) {
        assert [] + Kept(rest) == Kept(rest);
        OscBytes(m1, rest);
      } else {
        assert ([b] + Kept(rest))[1..] == Kept(rest);
        OscBytes(m1, rest);
        if b == P.SEMICOLON {
          SplitEndsPiece(m.osc, m.oscSplits, 0);
          ExtendedBySeparator(PiecesOf(m), Kept(rest));
        } else {
          ByteExtendsPiece(m.osc, m.oscSplits, 0, b);
          ExtendedByContent(PiecesOf(m), b, Kept(rest));
        }
      }
    }
  }

  /** The pieces after more bytes. */
  function Extended(pieces: seq<seq<byte>>, s: seq<byte>): seq<seq<byte>>
    requires pieces != []
  {
    pieces[..|pieces| - 1] + [pieces[|pieces| - 1] + Split(s)[0]] + Split(s)[1..]
  }

  lemma ExtendedByNothing(pieces: seq<seq<byte>>)
    requires pieces != []
    ensures Extended(pieces, []) == pieces
  {
    assert pieces[|pieces| - 1] + [] == pieces[|pieces| - 1];
  }

  lemma ExtendedBySeparator(pieces: seq<seq<byte>>, s: seq<byte>)
    requires pieces != []
    ensures Extended(pieces + [[]], s) == Extended(pieces, [P.SEMICOLON] + s)
  {
    var last, more := pieces[|pieces| - 1], Split(s);
    assert ([P.SEMICOLON] + s)[1..] == s;
    hide Split;
    assert last + [] == last && [] + more[0] == more[0];
    assert pieces[..|pieces| - 1] + [last] == pieces;
    assert more == [more[0]] + more[1..];
  }

  lemma ExtendedByContent(pieces: seq<seq<byte>>, b: byte, s: seq<byte>)
    requires pieces != [] && b != P.SEMICOLON
    ensures Extended(pieces[|pieces| - 1 := pieces[|pieces| - 1] + [b]], s) == Extended(pieces, [b] + s)
  {
    var last, more := pieces[|pieces| - 1], Split(s);
    assert ([b] + s)[1..] == s;
    hide Split;
    assert last + [b] + more[0] == last + ([b] + more[0]);
    assert ([[b] + more[0]] + more[1..])[1..] == more[1..];
  }

  /** The ways a string can end: BEL, ST as one byte, or ST as ESC and a backslash. */
  predicate IsEnding(ending: seq<byte>) {
    ending == [BEL] || ending == [ST] || ending == [ESC, BACKSLASH]
  }

  lemma OscEndsByByte(m: Machine, b: byte)
    requires m.Valid() && m.state == OscString && m.pending == [] && (b == BEL || b == ST)
    ensures var (m', es) := ProcessByte(m, b);
            m'.Idle() && es == [Osc(OscFields(m.osc, m.oscSplits, 0, 0))]
  {
    hide OscFields;
  }

  lemma EscapeInString(m: Machine)
    requires m.Valid() && m.state == OscString && m.pending == []
    ensures var (m', es) := ProcessByte(m, ESC);
            m'.state == Escape && m'.pending == [] && m'.previous == OscString
            && m'.osc == m.osc && m'.oscSplits == m.oscSplits && es == []
  {
  }

  lemma BackslashEnds(m: Machine)
    requires m.Valid() && m.state == Escape && m.pending == [] && m.previous == OscString
    ensures var (m', es) := ProcessByte(m, BACKSLASH);
            m'.Idle() && es == [Osc(OscFields(m.osc, m.oscSplits, 0, 0))]
  {
    hide OscFields;
  }

  lemma OscEnds(m: Machine, ending: seq<byte>)
    requires m.Valid() && m.state == OscString && m.pending == [] && IsEnding(ending)
    ensures var (m', es) := Run(m, ending);
            m'.Idle() && es == [Osc(P.Take16(PiecesOf(m)))]
  {
    hide ProcessByte, OscFields, Run, Pieces;
    FieldsArePieces(m.osc, m.oscSplits, 0, 0);
    assert OscFields(m.osc, m.oscSplits, 0, 0) == P.Take16(PiecesOf(m));
    if ending == [ESC, BACKSLASH] {
      EscapeInString(m);
      var (m1, es1) := ProcessByte(m, ESC);
      BackslashEnds(m1);
      RunOne(m, ESC);
      RunOne(m1, BACKSLASH);
      var (m2, es2) := ProcessByte(m1, BACKSLASH);
      RunThen(m, [ESC], m1, es1, [BACKSLASH], m2, es2);
      assert [ESC] + [BACKSLASH] == ending;
      assert es1 + es2 == es2;
    } else {
      OscEndsByByte(m, ending[0]);
      RunOne(m, ending[0]);
      assert ending == [ending[0]];
    }
  }

  /** An operating-system command, from any state, first prints what it interrupts and then makes
      one callback with the first sixteen fields of the bytes it keeps. */
  lemma OscParses(m: Machine, s: seq<byte>, ending: seq<byte>)
    requires m.Valid() && AllInside(s) && Content(Kept(s)) <= MAX_OSC_LEN && IsEnding(ending)
    ensures var (m', es) := Run(m, [ESC, OSC] + s + ending);
            m'.Idle() && es == Interrupted(m) + [Osc(P.Take16(Split(Kept(s))))]
  {
    hide Run, Split, Kept, Content, Interrupted, IsEnding;
    OscBegins(m);
    var (m1, es1) := Run(m, [ESC, OSC]);
    assert m1.osc[0..] == [];
    assert PiecesOf(m1) == [[]];
    OscBytes(m1, s);
    var m2 := Run(m1, s).0;
    assert [] + Split(Kept(s))[0] == Split(Kept(s))[0];
    assert Extended([[]], Kept(s)) == Split(Kept(s));
    OscEnds(m2, ending);
    var (m3, es3) := Run(m2, ending);
    RunThen(m, [ESC, OSC], m1, es1, s, m2, []);
    assert es1 + [] == es1;
    RunThen(m, [ESC, OSC] + s, m2, es1, ending, m3, es3);
  }

  lemma {:induction false} AllKept(s: seq<byte>)
    ensures Kept(s) == s <==> forall i :: 0 <= i < |s| ==> IsKept(s[i])
    ensures |Kept(s)| <= |s| && Content(s) <= |s|
    decreases s
  {
    if s != [] {
      AllKept(s[1..]);
      if IsKept(s[0]) {
        assert ([s[0]] + Kept(s[1..]))[1..] == Kept(s[1..]);
        assert s == [s[0]] + s[1..];
      }
    }
  }

  /** Fields without semicolons, of bytes that are kept, are reported one by one. */
  lemma FieldsParse(m: Machine, fields: seq<seq<byte>>, ending: seq<byte>)
    requires m.Valid() && 0 < |fields| <= 16 && NoSemicolons(fields) && IsEnding(ending)
    requires var s := Joined(fields); |s| <= MAX_OSC_LEN && forall i :: 0 <= i < |s| ==> IsKept(s[i])
    ensures var (m', es) := Run(m, [ESC, OSC] + Joined(fields) + ending);
            m'.Idle() && es == Interrupted(m) + [Osc(fields)]
  {
    hide Run, Split, Kept, Content, Interrupted, IsEnding;
    AllKept(Joined(fields));
    KeptIsInside(Joined(fields));
    SplitJoined(fields);
    OscParses(m, Joined(fields), ending);
  }

  lemma KeptIsInside(s: seq<byte>)
    requires forall i :: 0 <= i < |s| ==> IsKept(s[i])
    ensures AllInside(s)
  {
  }

  lemma NoEvents()
    ensures var none: seq<Event> := []; none + none == none
  {
  }

  // -------------------------------------------------------------------------
  // Cancellation and controls
  // -------------------------------------------------------------------------

  /** CAN and SUB end any sequence, and are executed. */
  lemma CancelFromAnywhere(m: Machine, b: byte)
    requires m.Valid() && (b == CAN || b == SUB)
    ensures var (m', es) := Run(m, [b]);
            m'.Idle() && es == Interrupted(m) + [Executed(b)]
  {
    CancelByte(m, b);
    hide *;
    RunOne(m, b);
  }

  lemma CancelByte(m: Machine, b: byte)
    requires m.Valid() && (b == CAN || b == SUB)
    ensures var (m', es) := ProcessByte(m, b);
            m'.Idle() && es == Interrupted(m) + [Executed(b)]
  {
    hide FlushEvents;
  }

  /** A control acts at once, whether or not a sequence has begun, and leaves it as it was. */
  predicate TakesControls(state: State) {
    state in {Ground, Escape, EscapeIntermediate, CsiEntry, CsiParam, CsiIntermediate, CsiIgnore}
  }

  lemma ControlActsInside(m: Machine, b: byte)
    requires m.Valid() && m.pending == [] && TakesControls(m.state) && IsControl(b)
    ensures Run(m, [b]) == (m, [Executed(b)])
  {
    ControlByte(m, b);
    hide *;
    RunOne(m, b);
  }

  lemma ControlByte(m: Machine, b: byte)
    requires m.Valid() && m.pending == [] && TakesControls(m.state) && IsControl(b)
    ensures ProcessByte(m, b) == (m, [Executed(b)])
  {
  }

  /** A control among the parameters of a control sequence is executed first; the sequence is
      dispatched as if it had not been there. */
  lemma ControlInsideSequence(m: Machine, private: bool, a: seq<byte>, b: byte, c: seq<byte>, final: byte)
    requires m.Valid() && P.IsParamString(a) && P.IsParamString(c) && IsControl(b) && IsFinal(final)
    ensures var (m', es) := Run(m, CsiBytes(private, a + [b] + c, final));
            m'.Idle()
            && es == Interrupted(m) + [Executed(b)]
                     + [Csi(if a + c == [] then [] else P.Take16(P.Fields(a + c)), Marker(private), final)]
  {
    assert P.IsParamString(a + c);
    hide P.Fields, ProcessByte, Run, P.Finalize, P.ParamAll, Marker, Interrupted, P.IsParamString, Machine.Valid;
    var intro := [ESC, BRACKET] + Marker(private);
    Introducer(m, private);
    var (m1, es1) := Run(m, intro);
    var m3 := ControlAmongParams(m1, a, b, c);
    P.ParamStringDenotesItsFields(a + c);
    FinalDispatches(m3, final);
    RunOne(m3, final);
    var (m4, es4) := ProcessByte(m3, final);
    RunThen(m, intro, m1, es1, a + [b] + c, m3, [Executed(b)]);
    RunThen(m, intro + (a + [b] + c), m3, es1 + [Executed(b)], [final], m4, es4);
  }

  lemma ControlAmongParams(m: Machine, a: seq<byte>, b: byte, c: seq<byte>) returns (m': Machine)
    requires m.Valid() && m.pending == [] && m.state in {CsiEntry, CsiParam}
    requires P.IsParamString(a) && P.IsParamString(c) && IsControl(b)
    ensures m'.Valid() && Run(m, a + [b] + c) == (m', [Executed(b)])
    ensures m'.state in {CsiEntry, CsiParam} && m'.pending == []
    ensures m'.params == P.ParamAll(m.params, a + c) && m'.intermediates == m.intermediates
  {
    hide ProcessByte, Run, P.ParamAll, P.IsParamString, IsControl;
    ParamBytesAccumulate(m, a);
    var m1 := Run(m, a).0;
    ControlActsInside(m1, b);
    ParamBytesAccumulate(m1, c);
    m' := Run(m1, c).0;
    P.ParamAllConcat(m.params, a, c);
    RunThen(m, a, m1, [], [b], m1, [Executed(b)]);
    assert [] + [Executed(b)] == [Executed(b)];
    RunThen(m, a + [b], m1, [Executed(b)], c, m', []);
    assert [Executed(b)] + [] == [Executed(b)];
  }

  /** DEL does nothing, except that it cuts a UTF-8 sequence short. */
  lemma DelIsIgnored(m: Machine)
    requires m.Valid()
    ensures Run(m, [DEL]) == (m.(pending := [], expected := 0), Interrupted(m))
  {
    DelByte(m);
    hide *;
    RunOne(m, DEL);
  }

  lemma DelByte(m: Machine)
    requires m.Valid()
    ensures ProcessByte(m, DEL) == (m.(pending := [], expected := 0), Interrupted(m))
  {
    hide FlushEvents;
    assert FlushEvents(m.pending) + [] == FlushEvents(m.pending);
  }

  // -------------------------------------------------------------------------
  // Control sequences of any form
  // -------------------------------------------------------------------------

  predicate AllIntermediate(s: seq<byte>) {
    forall i :: 0 <= i < |s| ==> IsIntermediate(s[i])
  }

  /** At most two intermediates are kept. */
  function FirstTwo(kept: seq<byte>, more: seq<byte>): seq<byte> {
    if |kept + more| <= MAX_INTERMEDIATES then kept + more else (kept + more)[..Max(|kept|, MAX_INTERMEDIATES)]
  }

  lemma CollectedIsFirstTwo(kept: seq<byte>, b: byte)
    ensures |kept| < MAX_INTERMEDIATES ==> FirstTwo(kept, [b]) == kept + [b]
    ensures |kept| >= MAX_INTERMEDIATES ==> FirstTwo(kept, [b]) == kept
  {
    if |kept| >= MAX_INTERMEDIATES {
      assert (kept + [b])[..|kept|] == kept;
    }
  }

  lemma MarkerCollects(m: Machine, b: byte)
    requires m.Valid() && m.pending == [] && m.state == CsiEntry && m.intermediates == [] && IsPrivate(b)
    ensures ProcessByte(m, b) == (m.(state := CsiParam, intermediates := [b]), [])
  {
    assert [] + [b] == [b];
  }

  predicate BeforeFinal(state: State) {
    state in {CsiEntry, CsiParam, CsiIntermediate}
  }

  lemma CsiIntermediateCollects(m: Machine, b: byte)
    requires m.Valid() && m.pending == [] && BeforeFinal(m.state) && IsIntermediate(b)
    ensures ProcessByte(m, b)
         == (m.(state := CsiIntermediate, intermediates := FirstTwo(m.intermediates, [b])), [])
  {
    hide FirstTwo;
    CollectedIsFirstTwo(m.intermediates, b);
  }

  lemma {:induction false} CsiIntermediatesCollect(m: Machine, ints: seq<byte>)
    requires m.Valid() && m.pending == [] && BeforeFinal(m.state) && AllIntermediate(ints)
    ensures var (m', es) := Run(m, ints);
            && es == [] && m'.pending == [] && BeforeFinal(m'.state) && m'.params == m.params
            && m'.intermediates == FirstTwo(m.intermediates, ints)
    decreases ints
  {
    hide ProcessByte, FirstTwo;
    CollectStep(m.intermediates, ints);
    if ints != [] {
      assert IsIntermediate(ints[0]);
      CsiIntermediateCollects(m, ints[0]);
      CsiIntermediatesCollect(ProcessByte(m, ints[0]).0, ints[1..]);
      NoEvents();
    }
  }

  lemma CollectStep(kept: seq<byte>, more: seq<byte>)
    requires |kept| <= MAX_INTERMEDIATES
    ensures if more == [] then FirstTwo(kept, more) == kept
            else FirstTwo(FirstTwo(kept, [more[0]]), more[1..]) == FirstTwo(kept, more)
  {
    if more != [] {
      assert kept + [more[0]] + more[1..] == kept + more;
    }
  }

  lemma AnyFinalDispatches(m: Machine, final: byte)
    requires m.Valid() && m.pending == [] && BeforeFinal(m.state) && IsFinal(final)
    ensures var (m', es) := ProcessByte(m, final);
            m'.Idle() && es == [Csi(P.Finalize(m.params).values, m.intermediates, final)]
  {
    hide P.Finalize, OscFields;
  }

  predicate IsMarker(marker: seq<byte>) {
    |marker| <= 1 && forall i :: 0 <= i < |marker| ==> IsPrivate(marker[i])
  }

  lemma AnyIntroducer(m: Machine, marker: seq<byte>) returns (m': Machine)
    requires m.Valid() && IsMarker(marker)
    ensures m'.Valid() && Run(m, [ESC, BRACKET] + marker) == (m', Interrupted(m))
    ensures m'.state in {CsiEntry, CsiParam} && m'.pending == [] && m'.params == P.EMPTY && m'.intermediates == marker
  {
    hide ProcessByte, Run, Interrupted;
    EscapeBracket(m);
    m' := Run(m, [ESC, BRACKET]).0;
    if marker == [] {
      assert [ESC, BRACKET] + [] == [ESC, BRACKET];
    } else {
      var b := marker[0];
      assert marker == [b];
      MarkerCollects(m', b);
      RunOne(m', b);
      var m2 := m'.(state := CsiParam, intermediates := [b]);
      RunThen(m, [ESC, BRACKET], m', Interrupted(m), [b], m2, []);
      assert Interrupted(m) + [] == Interrupted(m);
      m' := m2;
    }
  }

  /** A control sequence with any marker and any intermediates dispatches its first sixteen fields,
      and the first two of marker and intermediates. */
  lemma AnySequenceDispatches(m: Machine, marker: seq<byte>, s: seq<byte>, ints: seq<byte>, final: byte)
    requires m.Valid() && IsMarker(marker) && P.IsParamString(s) && AllIntermediate(ints) && IsFinal(final)
    ensures var (m', es) := Run(m, [ESC, BRACKET] + marker + s + ints + [final]);
            && m'.Idle()
            && es == Interrupted(m)
                     + [Csi(if s == [] then [] else P.Take16(P.Fields(s)), FirstTwo(marker, ints), final)]
  {
    hide ProcessByte, Run, Interrupted, P.ParamAll, P.Finalize, P.Fields, FirstTwo, P.IsParamString, IsMarker,
         AllIntermediate, IsFinal;
    var m1 := AnyIntroducer(m, marker);
    ParamBytesAccumulate(m1, s);
    P.ParamStringDenotesItsFields(s);
    var m2 := Run(m1, s).0;
    CsiIntermediatesCollect(m2, ints);
    var m3 := Run(m2, ints).0;
    AnyFinalDispatches(m3, final);
    RunOne(m3, final);
    var (m4, es4) := ProcessByte(m3, final);
    RunThen(m, [ESC, BRACKET] + marker, m1, Interrupted(m), s, m2, []);
    assert Interrupted(m) + [] == Interrupted(m);
    RunThen(m, [ESC, BRACKET] + marker + s, m2, Interrupted(m), ints, m3, []);
    RunThen(m, [ESC, BRACKET] + marker + s + ints, m3, Interrupted(m), [final], m4, es4);
  }

  /** A byte that spoils a control sequence: a colon, or a marker behind a parameter. */
  predicate Spoils(s: seq<byte>, b: byte) {
    b == 0x3A || (s != [] && IsPrivate(b))
  }

  predicate AllIgnorable(s: seq<byte>) {
    forall i :: 0 <= i < |s| ==> In(s[i], 0x20, 0x3F)
  }

  lemma SpoiledByte(m: Machine, b: byte)
    requires m.Valid() && m.pending == []
    ensures m.state in {CsiEntry, CsiParam} && (b == 0x3A || (IsPrivate(b) && m.state == CsiParam)) ==>
              ProcessByte(m, b) == (m.(state := CsiIgnore), [])
    ensures m.state == CsiIgnore && In(b, 0x20, 0x3F) ==> ProcessByte(m, b) == (m, [])
    ensures m.state == CsiIgnore && IsFinal(b) ==> ProcessByte(m, b) == (m.(state := Ground), [])
  {
  }

  lemma {:induction false} IgnorableBytes(m: Machine, s: seq<byte>)
    requires m.Valid() && m.pending == [] && m.state == CsiIgnore && AllIgnorable(s)
    ensures Run(m, s) == (m, [])
    decreases s
  {
    hide ProcessByte;
    if s != [] {
      assert In(s[0], 0x20, 0x3F);
      SpoiledByte(m, s[0]);
      IgnorableBytes(m, s[1..]);
      NoEvents();
    }
  }

  lemma {:induction false} ParamsEntered(m: Machine, s: seq<byte>)
    requires m.Valid() && m.pending == [] && m.state in {CsiEntry, CsiParam} && P.IsParamString(s) && s != []
    ensures Run(m, s).0.state == CsiParam
    decreases s
  {
    hide ProcessByte, P.Param;
    assert P.IsParamByte(s[0]);
    ParamByteAccumulates(m, s[0]);
    if |s| > 1 {
      ParamsEntered(ProcessByte(m, s[0]).0, s[1..]);
    }
  }

  /** A spoiled control sequence is skipped up to its final byte, and makes no callback. */
  lemma SpoiledIsSkipped(m: Machine, s: seq<byte>, b: byte, tail: seq<byte>, final: byte)
    requires m.Valid() && P.IsParamString(s) && Spoils(s, b) && AllIgnorable(tail) && IsFinal(final)
    ensures var (m', es) := Run(m, [ESC, BRACKET] + s + [b] + tail + [final]);
            m'.Idle() && es == Interrupted(m)
  {
    hide ProcessByte, Run, Interrupted, P.ParamAll, P.IsParamString, AllIgnorable, IsFinal;
    EscapeBracket(m);
    var m1 := Run(m, [ESC, BRACKET]).0;
    ParamBytesAccumulate(m1, s);
    if s != [] {
      ParamsEntered(m1, s);
    }
    var m2 := Run(m1, s).0;
    SpoiledByte(m2, b);
    RunOne(m2, b);
    var m3 := m2.(state := CsiIgnore);
    IgnorableBytes(m3, tail);
    SpoiledByte(m3, final);
    RunOne(m3, final);
    var m4 := m3.(state := Ground);
    assert Interrupted(m) + [] == Interrupted(m);
    RunThen(m, [ESC, BRACKET], m1, Interrupted(m), s, m2, []);
    RunThen(m, [ESC, BRACKET] + s, m2, Interrupted(m), [b], m3, []);
    RunThen(m, [ESC, BRACKET] + s + [b], m3, Interrupted(m), tail, m3, []);
    RunThen(m, [ESC, BRACKET] + s + [b] + tail, m3, Interrupted(m), [final], m4, []);
  }

  // -------------------------------------------------------------------------
  // Escape sequences
  // -------------------------------------------------------------------------

  /** The bytes that end an escape sequence without intermediates. */
  predicate EndsEscape(b: byte) {
    In(b, 0x30, 0x7E) && b !in {0x50, 0x58, 0x5B, 0x5C, 0x5D, 0x5E, 0x5F}
  }

  lemma {:induction false} IntermediatesCollect(m: Machine, ints: seq<byte>)
    requires m.Valid() && m.pending == [] && m.state in {Escape, EscapeIntermediate} && AllIntermediate(ints)
    requires |m.intermediates| + |ints| <= MAX_INTERMEDIATES
    ensures var (m', es) := Run(m, ints);
            && es == [] && m'.pending == [] && m'.intermediates == m.intermediates + ints
            && m'.state == if ints == [] then m.state else EscapeIntermediate
    decreases ints
  {
    hide ProcessByte;
    if ints == [] {
      assert m.intermediates + ints == m.intermediates;
    } else {
      assert IsIntermediate(ints[0]);
      IntermediateCollects(m, ints[0]);
      IntermediatesCollect(ProcessByte(m, ints[0]).0, ints[1..]);
      assert m.intermediates + [ints[0]] + ints[1..] == m.intermediates + ints;
    }
  }

  lemma IntermediateCollects(m: Machine, b: byte)
    requires m.Valid() && m.pending == [] && m.state in {Escape, EscapeIntermediate} && IsIntermediate(b)
    requires |m.intermediates| < MAX_INTERMEDIATES
    ensures ProcessByte(m, b)
         == (m.(state := EscapeIntermediate, intermediates := m.intermediates + [b]), [])
  {
  }

  lemma EscapeEnds(m: Machine, final: byte)
    requires m.Valid() && m.pending == []
    requires (m.state == Escape && EndsEscape(final))
             || (m.state == EscapeIntermediate && In(final, 0x30, 0x7E) && final != BACKSLASH)
    ensures var (m', es) := ProcessByte(m, final);
            m'.Idle() && es == [Esc(m.intermediates, final)]
  {
  }

  /** A sequence that has just begun has no intermediates yet. */
  predicate Clean(m: Machine) {
    m.state == Escape ==> m.intermediates == []
  }

  lemma ByteKeepsClean(m: Machine, b: byte)
    requires m.Valid() && Clean(m)
    ensures Clean(ProcessByte(m, b).0)
  {
    hide FlushEvents, P.Param, P.Finalize, OscFields;
  }

  /** So it is in every machine that some bytes lead to. */
  lemma {:induction false} ReachedIsClean(m: Machine, s: seq<byte>)
    requires m.Valid() && Clean(m)
    ensures Clean(Run(m, s).0) && Clean(INITIAL)
    decreases s
  {
    hide ProcessByte;
    if s != [] {
      ByteKeepsClean(m, s[0]);
      ReachedIsClean(ProcessByte(m, s[0]).0, s[1..]);
    }
  }

  lemma EscapeBegins(m: Machine)
    requires m.Valid() && Clean(m)
    ensures var (m', es) := Run(m, [ESC]);
            m'.state == Escape && m'.pending == [] && m'.intermediates == [] && es == Interrupted(m)
  {
    EscapeByte(m);
    hide *;
    RunOne(m, ESC);
  }

  lemma EscapeByte(m: Machine)
    requires m.Valid()
    ensures var (m', es) := ProcessByte(m, ESC);
            m'.state == Escape && m'.pending == [] && es == Interrupted(m)
            && (m.state == Escape ==> m'.intermediates == m.intermediates)
            && (m.state != Escape ==> m'.intermediates == [])
  {
    hide FlushEvents;
    assert FlushEvents(m.pending) + [] == FlushEvents(m.pending);
  }

  /** An escape sequence makes one callback with its intermediates, of which two are kept at
      most. */
  lemma EscapeDispatches(m: Machine, ints: seq<byte>, final: byte)
    requires m.Valid() && Clean(m)
    requires AllIntermediate(ints) && |ints| <= MAX_INTERMEDIATES
    requires if ints == [] then EndsEscape(final) else In(final, 0x30, 0x7E) && final != BACKSLASH
    ensures var (m', es) := Run(m, [ESC] + ints + [final]);
            m'.Idle() && es == Interrupted(m) + [Esc(ints, final)]
  {
    hide ProcessByte, Run, Interrupted, AllIntermediate, Machine.Valid;
    EscapeBegins(m);
    var (m1, es1) := Run(m, [ESC]);
    IntermediatesCollect(m1, ints);
    assert [] + ints == ints;
    var m2 := Run(m1, ints).0;
    EscapeEnds(m2, final);
    RunOne(m2, final);
    var (m3, es3) := ProcessByte(m2, final);
    RunThen(m, [ESC], m1, es1, ints, m2, []);
    assert es1 + [] == es1;
    RunThen(m, [ESC] + ints, m2, es1, [final], m3, es3);
  }

  // -------------------------------------------------------------------------
  // Strings that are ignored
  // -------------------------------------------------------------------------

  /** SOS, PM and APC. */
  predicate BeginsIgnored(b: byte) {
    b == 0x58 || b == 0x5E || b == 0x5F
  }

  lemma IgnoredByte(m: Machine, b: byte)
    requires m.Valid() && m.state == SosPmApcString && m.pending == [] && b !in {CAN, SUB, ESC, ST}
    ensures ProcessByte(m, b) == (m, [])
  {
  }

  lemma {:induction false} IgnoredBytes(m: Machine, s: seq<byte>)
    requires m.Valid() && m.state == SosPmApcString && m.pending == []
    requires forall i :: 0 <= i < |s| ==> s[i] !in {CAN, SUB, ESC, ST}
    ensures Run(m, s) == (m, [])
    decreases s
  {
    hide ProcessByte;
    if s != [] {
      assert s[0] !in {CAN, SUB, ESC, ST};
      IgnoredByte(m, s[0]);
      IgnoredBytes(m, s[1..]);
      NoEvents();
    }
  }

  lemma IgnoredEnds(m: Machine, begin: byte)
    requires m.Valid() && m.pending == []
    ensures m.state == Escape && BeginsIgnored(begin) ==>
              var (m', es) := ProcessByte(m, begin);
              m'.state == SosPmApcString && m'.pending == [] && es == []
    ensures m.state == SosPmApcString ==> ProcessByte(m, ST).0.Idle() && ProcessByte(m, ST).1 == []
  {
  }

  /** Nothing of such a string is printed or acted on. */
  lemma StringIsIgnored(m: Machine, begin: byte, s: seq<byte>)
    requires m.Valid() && Clean(m) && BeginsIgnored(begin)
    requires forall i :: 0 <= i < |s| ==> s[i] !in {CAN, SUB, ESC, ST}
    ensures var (m', es) := Run(m, [ESC, begin] + s + [ST]);
            m'.Idle() && es == Interrupted(m)
  {
    hide ProcessByte, Run, Interrupted, Machine.Valid;
    EscapeBegins(m);
    var (m1, es1) := Run(m, [ESC]);
    IgnoredEnds(m1, begin);
    RunOne(m1, begin);
    var (m2, es2) := ProcessByte(m1, begin);
    IgnoredBytes(m2, s);
    IgnoredEnds(m2, begin);
    RunOne(m2, ST);
    var (m3, es3) := ProcessByte(m2, ST);
    RunThen(m, [ESC], m1, es1, [begin], m2, es2);
    assert [ESC] + [begin] == [ESC, begin] && es1 + [] == es1;
    RunThen(m, [ESC, begin], m2, es1, s, m2, []);
    RunThen(m, [ESC, begin] + s, m2, es1, [ST], m3, es3);
  }

  // -------------------------------------------------------------------------
  // Device-control strings
  // -------------------------------------------------------------------------

  const DCS: byte := 0x50

  lemma DcsBegins(m: Machine)
    requires m.Valid() && m.state == Escape && m.pending == []
    ensures var (m', es) := ProcessByte(m, DCS);
            m'.state == DcsEntry && m'.pending == [] && m'.params == P.EMPTY && m'.intermediates == []
            && m'.dcs == [] && es == []
  {
  }

  lemma DcsParamByte(m: Machine, b: byte)
    requires m.Valid() && m.pending == [] && m.state in {DcsEntry, DcsParam} && P.IsParamByte(b)
    ensures ProcessByte(m, b) == (m.(state := DcsParam, params := P.Param(m.params, b)), [])
  {
    hide P.Param;
  }

  predicate BeforeHook(state: State) {
    state in {DcsEntry, DcsParam, DcsIntermediate}
  }

  lemma DcsMarker(m: Machine, b: byte)
    requires m.Valid() && m.pending == [] && m.state == DcsEntry && m.intermediates == [] && IsPrivate(b)
    ensures ProcessByte(m, b) == (m.(state := DcsParam, intermediates := [b]), [])
  {
    assert [] + [b] == [b];
  }

  lemma DcsCollectsByte(m: Machine, b: byte)
    requires m.Valid() && m.pending == [] && BeforeHook(m.state) && IsIntermediate(b)
    ensures ProcessByte(m, b)
         == (m.(state := DcsIntermediate, intermediates := FirstTwo(m.intermediates, [b])), [])
  {
    hide FirstTwo;
    CollectedIsFirstTwo(m.intermediates, b);
  }

  lemma DcsHooks(m: Machine, final: byte)
    requires m.Valid() && m.pending == [] && BeforeHook(m.state) && IsFinal(final)
    ensures ProcessByte(m, final)
         == (m.(state := DcsPassthrough, intermediates := FirstTwo(m.intermediates, [final])), [])
  {
    hide FirstTwo;
    CollectedIsFirstTwo(m.intermediates, final);
  }

  lemma {:induction false} DcsIntermediates(m: Machine, ints: seq<byte>)
    requires m.Valid() && m.pending == [] && BeforeHook(m.state) && AllIntermediate(ints)
    ensures var (m', es) := Run(m, ints);
            && es == [] && m'.pending == [] && BeforeHook(m'.state) && m'.params == m.params && m'.dcs == m.dcs
            && m'.intermediates == FirstTwo(m.intermediates, ints)
    decreases ints
  {
    hide ProcessByte, FirstTwo;
    CollectStep(m.intermediates, ints);
    if ints != [] {
      assert IsIntermediate(ints[0]);
      DcsCollectsByte(m, ints[0]);
      DcsIntermediates(ProcessByte(m, ints[0]).0, ints[1..]);
      NoEvents();
    }
  }

  lemma {:induction false} DcsParams(m: Machine, s: seq<byte>)
    requires m.Valid() && m.pending == [] && m.state in {DcsEntry, DcsParam} && P.IsParamString(s)
    ensures var (m', es) := Run(m, s);
            es == [] && m'.state in {DcsEntry, DcsParam} && m'.pending == [] && m'.dcs == m.dcs
            && m'.params == P.ParamAll(m.params, s) && m'.intermediates == m.intermediates
    decreases s
  {
    hide P.Param, ProcessByte;
    if s != [] {
      assert P.IsParamByte(s[0]);
      DcsParamByte(m, s[0]);
      DcsParams(ProcessByte(m, s[0]).0, s[1..]);
    }
  }

  predicate IsData(b: byte) {
    IsControl(b) || In(b, 0x20, 0x7E)
  }

  predicate AllData(s: seq<byte>) {
    forall i :: 0 <= i < |s| ==> IsData(s[i])
  }

  lemma DcsByte(m: Machine, b: byte)
    requires m.Valid() && m.pending == [] && m.state == DcsPassthrough && |m.dcs| < MAX_DCS_LEN && IsData(b)
    ensures ProcessByte(m, b) == (m.(dcs := m.dcs + [b]), [])
  {
  }

  lemma {:induction false} DcsData(m: Machine, s: seq<byte>)
    requires m.Valid() && m.pending == [] && m.state == DcsPassthrough && |m.dcs| + |s| <= MAX_DCS_LEN && AllData(s)
    ensures Run(m, s) == (m.(dcs := m.dcs + s), [])
    decreases s
  {
    hide ProcessByte, IsData;
    if s == [] {
      assert m.dcs + s == m.dcs;
    } else {
      DcsByte(m, s[0]);
      DcsData(m.(dcs := m.dcs + [s[0]]), s[1..]);
      NoEvents();
      assert m.dcs + [s[0]] + s[1..] == m.dcs + s;
    }
  }

  lemma DcsEnds(m: Machine)
    requires m.Valid() && m.pending == [] && m.state == DcsPassthrough && m.intermediates != []
    ensures var (m', es) := ProcessByte(m, ST);
            var last := |m.intermediates| - 1;
            m'.Idle() && es == [Dcs(P.Finalize(m.params).values, m.intermediates[..last], m.intermediates[last], m.dcs)]
  {
    hide P.Finalize;
  }

  lemma DcsEscaped(m: Machine)
    requires m.Valid() && m.pending == [] && m.state == DcsPassthrough
    ensures var (m', es) := ProcessByte(m, ESC);
            m'.state == Escape && m'.pending == [] && m'.previous == DcsPassthrough && m'.dcs == m.dcs
            && m'.params == P.EMPTY && m'.intermediates == [] && es == []
  {
  }

  lemma DcsBackslash(m: Machine)
    requires m.Valid() && m.pending == [] && m.state == Escape && m.previous == DcsPassthrough
    requires m.params == P.EMPTY && m.intermediates == []
    ensures var (m', es) := ProcessByte(m, BACKSLASH);
            m'.Idle() && es == [Dcs([], [], 0, m.dcs)]
  {
  }

  /** Marker, parameters, intermediates, final byte and data of a device-control string. */
  function DcsBytes(marker: seq<byte>, s: seq<byte>, ints: seq<byte>, final: byte, data: seq<byte>): seq<byte> {
    [ESC, DCS] + marker + s + ints + [final] + data
  }

  lemma DcsIntroducer(m: Machine, marker: seq<byte>) returns (m': Machine)
    requires m.Valid() && IsMarker(marker)
    ensures m'.Valid() && Run(m, [ESC, DCS] + marker) == (m', Interrupted(m))
    ensures m'.state in {DcsEntry, DcsParam} && m'.pending == [] && m'.params == P.EMPTY && m'.intermediates == marker
    ensures m'.dcs == []
  {
    hide ProcessByte, Run, Interrupted;
    EscapeFromAnywhere(m);
    RunOne(m, ESC);
    var (m1, es1) := ProcessByte(m, ESC);
    DcsBegins(m1);
    RunOne(m1, DCS);
    m' := ProcessByte(m1, DCS).0;
    RunThen(m, [ESC], m1, es1, [DCS], m', []);
    assert [ESC] + [DCS] == [ESC, DCS] && es1 + [] == es1;
    if marker == [] {
      assert [ESC, DCS] + [] == [ESC, DCS];
    } else {
      var b := marker[0];
      assert marker == [b];
      DcsMarker(m', b);
      RunOne(m', b);
      var m2 := m'.(state := DcsParam, intermediates := [b]);
      RunThen(m, [ESC, DCS], m', es1, [b], m2, []);
      m' := m2;
    }
  }

  /** The machine behind the data of a device-control string. */
  lemma DcsCollects(m: Machine, marker: seq<byte>, s: seq<byte>, ints: seq<byte>, final: byte, data: seq<byte>)
    returns (m': Machine)
    requires m.Valid() && IsMarker(marker) && P.IsParamString(s) && AllIntermediate(ints) && IsFinal(final)
    requires AllData(data) && |data| <= MAX_DCS_LEN
    ensures m'.Valid() && Run(m, DcsBytes(marker, s, ints, final, data)) == (m', Interrupted(m))
    ensures m'.pending == [] && m'.state == DcsPassthrough && m'.dcs == data
    ensures m'.intermediates == FirstTwo(FirstTwo(marker, ints), [final]) && m'.params == P.ParamAll(P.EMPTY, s)
  {
    hide ProcessByte, Run, Interrupted, P.ParamAll, P.IsParamString, AllData, IsFinal, IsMarker, AllIntermediate,
         FirstTwo;
    var m1 := DcsIntroducer(m, marker);
    DcsParams(m1, s);
    var m2 := Run(m1, s).0;
    DcsIntermediates(m2, ints);
    var m3 := Run(m2, ints).0;
    DcsHooks(m3, final);
    RunOne(m3, final);
    var m4 := ProcessByte(m3, final).0;
    DcsData(m4, data);
    m' := m4.(dcs := m4.dcs + data);
    var es := Interrupted(m);
    assert [] + data == data && es + [] == es;
    RunThen(m, [ESC, DCS] + marker, m1, es, s, m2, []);
    RunThen(m, [ESC, DCS] + marker + s, m2, es, ints, m3, []);
    RunThen(m, [ESC, DCS] + marker + s + ints, m3, es, [final], m4, []);
    RunThen(m, [ESC, DCS] + marker + s + ints + [final], m4, es, data, m', []);
  }

  lemma LastKept(marker: seq<byte>, ints: seq<byte>, final: byte)
    requires |marker| <= 1
    ensures var kept := FirstTwo(FirstTwo(marker, ints), [final]);
            && 0 < |kept| <= MAX_INTERMEDIATES
            && (|marker + ints| < MAX_INTERMEDIATES ==> kept == marker + ints + [final])
            && (|marker + ints| >= MAX_INTERMEDIATES ==> kept == (marker + ints)[..MAX_INTERMEDIATES])
  {
  }

  /** What a device-control string ended by ST as one byte is reported as. Its final byte is stored
      behind its marker and intermediates, so it is reported only if these are fewer than two;
      otherwise the second of them is taken for it. */
  function DcsEvent(marker: seq<byte>, s: seq<byte>, ints: seq<byte>, final: byte, data: seq<byte>): Event
    requires P.IsParamString(s)
  {
    var params := if s == [] then [] else P.Take16(P.Fields(s));
    var kept := marker + ints;
    if |kept| < MAX_INTERMEDIATES then Dcs(params, kept, final, data) else Dcs(params, kept[..1], kept[1], data)
  }

  /** Ended by ESC and a backslash, a string is reported with its data only. */
  lemma DcsParses(m: Machine, marker: seq<byte>, s: seq<byte>, ints: seq<byte>, final: byte, data: seq<byte>,
          escaped: bool)
    requires m.Valid() && IsMarker(marker) && P.IsParamString(s) && AllIntermediate(ints) && IsFinal(final)
    requires AllData(data) && |data| <= MAX_DCS_LEN
    ensures var bytes := DcsBytes(marker, s, ints, final, data) + if escaped then [ESC, BACKSLASH] else [ST];
            var (m', es) := Run(m, bytes);
            m'.Idle()
            && es == Interrupted(m) + [if escaped then Dcs([], [], 0, data) else DcsEvent(marker, s, ints, final, data)]
  {
    hide ProcessByte, Run, Interrupted, P.ParamAll, P.IsParamString, AllData, IsFinal, DcsBytes, P.Finalize, P.Fields,
         AllIntermediate, FirstTwo;
    var m1 := DcsCollects(m, marker, s, ints, final, data);
    var head := DcsBytes(marker, s, ints, final, data);
    LastKept(marker, ints, final);
    P.ParamStringDenotesItsFields(s);
    if escaped {
      DcsEscaped(m1);
      var m2 := ProcessByte(m1, ESC).0;
      DcsBackslash(m2);
      RunOne(m1, ESC);
      RunOne(m2, BACKSLASH);
      var (m3, es3) := ProcessByte(m2, BACKSLASH);
      RunThen(m1, [ESC], m2, [], [BACKSLASH], m3, es3);
      assert [ESC] + [BACKSLASH] == [ESC, BACKSLASH] && [] + es3 == es3;
      RunThen(m, head, m1, Interrupted(m), [ESC, BACKSLASH], m3, es3);
    } else {
      DcsEnds(m1);
      RunOne(m1, ST);
      var (m2, es2) := ProcessByte(m1, ST);
      RunThen(m, head, m1, Interrupted(m), [ST], m2, es2);
      KeptEvent(marker, ints, final);
    }
  }

  lemma KeptEvent(marker: seq<byte>, ints: seq<byte>, final: byte)
    requires |marker| <= 1
    ensures var kept := FirstTwo(FirstTwo(marker, ints), [final]);
            var own := marker + ints;
            if |own| < MAX_INTERMEDIATES then kept[..|kept| - 1] == own && kept[|kept| - 1] == final
            else kept[..|kept| - 1] == own[..1] && kept[|kept| - 1] == own[1]
  {
    LastKept(marker, ints, final);
  }
}
