/** The parser as an object: fixed buffers for parameters, intermediates and a partial
    UTF-8 sequence, updated byte by byte. Its abstract value is a `Parser.Machine`. */
module ParserObject {
  import opened Common
  import opened ParserTable
  import opened Parser
  import opened ParamBuffers
  import ParserProperties
  import P = Params
  import Utf8

  class VteParser {
    var state: State
    const params: ParamBuffer
    const intermediates: array<byte>
    var intermediatesLen: nat
    var oscBuffer: seq<byte>
    var oscParamsIdx: seq<nat>
    var dcsData: seq<byte>
    const utf8Buffer: array<byte>
    var utf8Len: nat
    var utf8Expected: nat
    var prevState: State

    ghost predicate Shape()
      reads this, params, params.values, intermediates, utf8Buffer
    {
      && params.Valid()
      && intermediates.Length == MAX_INTERMEDIATES
      && utf8Buffer.Length == 4
      && intermediates != utf8Buffer
      && params.values as object != intermediates as object
      && params.values as object != utf8Buffer as object
      && intermediatesLen <= MAX_INTERMEDIATES
      && utf8Len <= 4
    }

    ghost function State(): Machine
      requires Shape()
      reads this, params, params.values, intermediates, utf8Buffer
    {
      Machine(state, params.State(), intermediates[..intermediatesLen], oscBuffer, oscParamsIdx, dcsData,
              utf8Buffer[..utf8Len], utf8Expected, prevState)
    }

    ghost predicate Valid()
      reads this, params, params.values, intermediates, utf8Buffer
    {
      Shape() && State().Valid()
    }

    constructor ()
      ensures Valid() && State() == INITIAL
      ensures fresh(params) && fresh(params.values) && fresh(intermediates) && fresh(utf8Buffer)
    {
      state := Ground;
      var p := new ParamBuffer();
      params := p;
      var i := new byte[MAX_INTERMEDIATES](_ => 0);
      intermediates := i;
      intermediatesLen := 0;
      oscBuffer, oscParamsIdx, dcsData := [], [], [];
      var u := new byte[4](_ => 0);
      utf8Buffer := u;
      utf8Len, utf8Expected := 0, 0;
      prevState := Ground;
    }

    method Advance(input: seq<byte>) returns (events: seq<Event>)
      requires Valid()
      modifies this, params, params.values, intermediates, utf8Buffer
      ensures Valid() && (State(), events) == Run(old(State()), input)
    {
      events := [];
      ghost var m0 := State();
      for i := 0 to |input|
        invariant Valid()
        invariant (State(), events) == Run(m0, input[..i])
      {
        ghost var m := State();
        var es := ProcessByte(input[i]);
        RunSnoc(m0, input[..i], input[i]);
        assert input[..i + 1] == input[..i] + [input[i]];
        events := events + es;
      }
      assert input[..|input|] == input;
    }

    method ProcessByte(b: byte) returns (events: seq<Event>)
      requires Valid()
      modifies this, params, params.values, intermediates, utf8Buffer
      ensures Valid() && (State(), events) == Parser.ProcessByte(old(State()), b)
    {
      if state == Ground && b >= 0x80 {
        events := ProcessUtf8(b);
        return;
      }
      events := [];
      if utf8Len > 0 && (!(0x80 <= b <= 0xBF) || state != Ground) {
        events := FlushUtf8();
      }
      var es := ProcessTable(b);
      events := events + es;
      assert [] + es == es;
    }

    /** The part of a byte's work that goes through the table. */
    method ProcessTable(b: byte) returns (events: seq<Event>)
      requires Valid() && State().pending == []
      modifies this, params, params.values, intermediates
      ensures Valid() && (State(), events) == Parser.ProcessTable(old(State()), b)
      ensures State().pending == []
    {
      var (action, nextState) := Transition(state, b);
      if nextState == Escape && state != Escape {
        prevState := state;
      }
      if nextState != state {
        PerformEntryAction(nextState);
      }
      events := PerformAction(action, b);
      state := nextState;
    }

    method ProcessUtf8(b: byte) returns (events: seq<Event>)
      requires Valid() && state == Ground && b >= 0x80
      modifies this, utf8Buffer
      ensures Valid() && (State(), events) == Parser.ProcessUtf8(old(State()), b)
      decreases utf8Len
    {
      events := [];
      if utf8Len == 0 {
        var expected := Utf8.Announced(b);
        if expected == 0 {
          events := [Printed(Utf8.REPLACEMENT)];
          return;
        }
        utf8Expected := expected;
      }
      if Utf8.IsTail(b) || utf8Len == 0 {
        ghost var pending := utf8Buffer[..utf8Len];
        utf8Buffer[utf8Len] := b;
        utf8Len := utf8Len + 1;
        assert utf8Buffer[..utf8Len] == pending + [b];
        assert pending == [] ==> pending + [b] == [b];
        assert State() == old(State()).(pending := pending + [b], expected := utf8Expected);
      } else {
        var flushed := FlushUtf8();
        var es := ProcessUtf8(b);
        events := flushed + es;
        return;
      }
      if utf8Len == utf8Expected {
        events := FlushUtf8();
      }
    }

    method FlushUtf8() returns (events: seq<Event>)
      requires Shape()
      modifies this
      ensures Shape() && State() == Flushed(old(State()))
      ensures events == FlushEvents(old(State()).pending)
      ensures utf8Len == 0
    {
      var text := Utf8.Decode(utf8Buffer[..utf8Len]);
      if text.Some? {
        var s := text.value;
        events := [];
        for i := 0 to |s|
          invariant events == Prints(s)[..i]
        {
          events := events + [Printed(s[i])];
        }
      } else {
        events := [Printed(Utf8.REPLACEMENT)];
      }
      utf8Len, utf8Expected := 0, 0;
      assert utf8Buffer[..utf8Len] == [];
    }

    method PerformEntryAction(newState: State)
      requires Valid() && State().pending == []
      modifies this, params
      ensures Valid() && State() == Entered(old(State()), newState)
    {
      match newState
      case Escape =>
        intermediatesLen := 0;
        params.Clear();
      case CsiEntry =>
        intermediatesLen := 0;
        params.Clear();
      case DcsEntry =>
        intermediatesLen := 0;
        params.Clear();
        dcsData := [];
      case OscString =>
        oscBuffer, oscParamsIdx := [], [];
      case _ =>
    }

    method Collect(b: byte)
      requires Valid() && State().pending == []
      modifies this, intermediates
      ensures Valid() && State() == Collected(old(State()), b)
    {
      if intermediatesLen < MAX_INTERMEDIATES {
        ghost var before := intermediates[..intermediatesLen];
        intermediates[intermediatesLen] := b;
        intermediatesLen := intermediatesLen + 1;
        assert intermediates[..intermediatesLen] == before + [b];
      }
    }

    method PerformAction(action: Action, b: byte) returns (events: seq<Event>)
      requires Valid() && State().pending == []
      modifies this, params, params.values, intermediates
      ensures Valid() && (State(), events) == Perform(old(State()), action, b)
    {
      events := [];
      match action
      case NoAction =>
      case Ignore =>
      case Print => events := [Printed(b as char)];
      case Execute => events := [Executed(b)];
      case Collect => Collect(b);
      case Param =>
        if b == P.SEMICOLON {
          params.FinishParam();
        } else {
          params.AddDigit(b);
        }
      case EscDispatch => events := DispatchEsc(b);
      case CsiDispatch =>
        params.Finalize();
        var ps := params.AsSlice();
        events := [Csi(ps, intermediates[..intermediatesLen], b)];
      case Hook => Collect(b);
      case Put =>
        if |dcsData| < MAX_DCS_LEN {
          dcsData := dcsData + [b];
        }
      case Unhook => events := DispatchDcs();
      case OscStart => oscBuffer, oscParamsIdx := [], [];
      case OscPut =>
        if b == P.SEMICOLON {
          oscParamsIdx := oscParamsIdx + [|oscBuffer|];
        } else if |oscBuffer| < MAX_OSC_LEN {
          oscBuffer := oscBuffer + [b];
        }
      case OscEnd => events := DispatchOsc();
    }

    method DispatchEsc(b: byte) returns (events: seq<Event>)
      requires Valid() && State().pending == []
      modifies this
      ensures Valid() && (State(), events) == Perform(old(State()), EscDispatch, b)
    {
      if b == BACKSLASH {
        if prevState == OscString {
          events := DispatchOsc();
          return;
        } else if prevState == DcsPassthrough {
          var ps := params.AsSlice();
          events := [Dcs(ps, intermediates[..intermediatesLen], 0, dcsData)];
          dcsData := [];
          return;
        }
      }
      events := [Esc(intermediates[..intermediatesLen], b)];
    }

    method DispatchDcs() returns (events: seq<Event>)
      requires Valid() && State().pending == []
      modifies this, params, params.values
      ensures Valid() && (State(), events) == Perform(old(State()), Unhook, 0)
    {
      var final: byte, n := 0, 0;
      if intermediatesLen > 0 {
        final, n := intermediates[intermediatesLen - 1], intermediatesLen - 1;
      }
      params.Finalize();
      var ps := params.AsSlice();
      events := [Dcs(ps, intermediates[..n], final, dcsData)];
      assert intermediatesLen > 0 ==> intermediates[..intermediatesLen][..n] == intermediates[..n];
      dcsData := [];
    }

    method DispatchOsc() returns (events: seq<Event>)
      requires Valid()
      ensures events == [Osc(OscFields(State().osc, State().oscSplits, 0, 0))]
    {
      var fields := [];
      var start: nat := 0;
      assert oscParamsIdx[0..] == oscParamsIdx;
      assert [] + OscFields(oscBuffer, oscParamsIdx, 0, 0) == OscFields(oscBuffer, oscParamsIdx, 0, 0);
      for i := 0 to |oscParamsIdx|
        invariant start <= |oscBuffer|
        invariant forall k :: i <= k < |oscParamsIdx| ==> start <= oscParamsIdx[k]
        invariant |fields| <= MAX_OSC_PARAMS
        invariant fields + OscFields(oscBuffer, oscParamsIdx[i..], start, |fields|)
               == OscFields(oscBuffer, oscParamsIdx, 0, 0)
      {
        var split := oscParamsIdx[i];
        ghost var rest := oscParamsIdx[i..];
        assert rest[1..] == oscParamsIdx[i + 1..];
        OscFieldsStep(oscBuffer, rest, start, fields);
        if |fields| < MAX_OSC_PARAMS {
          fields := fields + [oscBuffer[start..split]];
        }
        start := split;
      }
      assert oscParamsIdx[|oscParamsIdx|..] == [];
      assert fields + [] == fields;
      if |fields| < MAX_OSC_PARAMS {
        fields := fields + [oscBuffer[start..]];
      }
      events := [Osc(fields)];
    }
  }

  lemma OscFieldsStep(osc: seq<byte>, splits: seq<nat>, start: nat, fields: seq<seq<byte>>)
    requires start <= |osc| && splits != []
    requires forall i :: 0 <= i < |splits| ==> start <= splits[i] <= |osc|
    requires forall i, j :: 0 <= i < j < |splits| ==> splits[i] <= splits[j]
    ensures var fields' := if |fields| < MAX_OSC_PARAMS then fields + [osc[start..splits[0]]] else fields;
            fields + OscFields(osc, splits, start, |fields|)
            == fields' + OscFields(osc, splits[1..], splits[0], |fields'|)
  {
    if |fields| < MAX_OSC_PARAMS {
      var piece := osc[start..splits[0]];
      var rest := OscFields(osc, splits[1..], splits[0], |fields| + 1);
      assert fields + ([piece] + rest) == (fields + [piece]) + rest;
    }
  }

  lemma RunSnoc(m: Machine, s: seq<byte>, b: byte)
    requires m.Valid()
    ensures var (m1, es1) := Run(m, s);
            var (m2, es2) := Parser.ProcessByte(m1, b);
            Run(m, s + [b]) == (m2, es1 + es2)
  {
    hide Parser.ProcessByte;
    ParserProperties.RunConcat(m, s, [b]);
    ParserProperties.RunOne(Run(m, s).0, b);
  }
}
