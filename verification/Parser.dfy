/** The escape-sequence parser on values: what one byte does to the machine, and the
    callbacks it makes, in order, as a sequence of events. */
module Parser {
  import opened Common
  import opened ParserTable
  import P = Params
  import Utf8

  const MAX_INTERMEDIATES: nat := 2
  const MAX_OSC_LEN: nat := 65536
  const MAX_OSC_PARAMS: nat := 16
  const MAX_DCS_LEN: nat := 65536
  const BACKSLASH: byte := 0x5C
  const BRACKET: byte := 0x5B

  /** A callback of the parser. */
  datatype Event =
    | Printed(c: char)
    | Executed(control: byte)
    | Csi(params: seq<u16>, intermediates: seq<byte>, action: byte)
    | Esc(intermediates: seq<byte>, action: byte)
    | Osc(fields: seq<seq<byte>>)
    | Dcs(params: seq<u16>, intermediates: seq<byte>, action: byte, data: seq<byte>)

  datatype Machine = Machine(
    state: State,
    params: P.Accumulator,
    intermediates: seq<byte>,
    osc: seq<byte>,
    oscSplits: seq<nat>,
    dcs: seq<byte>,
    pending: seq<byte>,
    expected: nat,
    previous: State)
  {
    /** A UTF-8 sequence is pending only in Ground, and is always short of the length its
        leading byte announced. */
    ghost predicate Valid() {
      && params.Valid()
      && |intermediates| <= MAX_INTERMEDIATES
      && |osc| <= MAX_OSC_LEN
      && (forall i :: 0 <= i < |oscSplits| ==> oscSplits[i] <= |osc|)
      && (forall i, j :: 0 <= i < j < |oscSplits| ==> oscSplits[i] <= oscSplits[j])
      && |dcs| <= MAX_DCS_LEN
      && (pending == [] <==> expected == 0)
      && (pending != [] ==>
            state == Ground && |pending| < expected <= 4 && expected == Utf8.Announced(pending[0]) >= 2
            && forall i :: 1 <= i < |pending| ==> Utf8.IsTail(pending[i]))
    }

    predicate Idle() {
      state == Ground && pending == [] && expected == 0
    }
  }

  const INITIAL: Machine := Machine(Ground, P.EMPTY, [], [], [], [], [], 0, Ground)

  /** One `Printed` event for each character. */
  function Prints(s: string): (es: seq<Event>)
    ensures |es| == |s|
    ensures forall i :: 0 <= i < |s| ==> es[i] == Printed(s[i])
  {
    seq(|s|, i requires 0 <= i < |s| => Printed(s[i]))
  }

  /** What the pending bytes print as: their text, or one replacement character. */
  function FlushEvents(pending: seq<byte>): seq<Event> {
    var text := Utf8.Decode(pending);
    if text.Some? then Prints(text.value) else [Printed(Utf8.REPLACEMENT)]
  }

  function Flushed(m: Machine): Machine {
    m.(pending := [], expected := 0)
  }

  /** A byte from 0x80 up in Ground. */
  function ProcessUtf8(m: Machine, b: byte): (Machine, seq<Event>) {
    if m.pending == [] then
      StartUtf8(m, b)
    else if Utf8.IsTail(b) then
      var m := m.(pending := m.pending + [b]);
      if |m.pending| == m.expected then (Flushed(m), FlushEvents(m.pending)) else (m, [])
    else
      var (m', es) := StartUtf8(Flushed(m), b);
      (m', FlushEvents(m.pending) + es)
  }

  function StartUtf8(m: Machine, b: byte): (Machine, seq<Event>) {
    var n := Utf8.Announced(b);
    if n == 0 then (m, [Printed(Utf8.REPLACEMENT)])
    else (m.(pending := [b], expected := n), [])
  }

  function Entered(m: Machine, next: State): (r: Machine)
    requires m.Valid() && m.pending == []
    ensures r.Valid() && r.pending == []
  {
    match next
    case Escape => m.(intermediates := [], params := P.EMPTY)
    case CsiEntry => m.(intermediates := [], params := P.EMPTY)
    case DcsEntry => m.(intermediates := [], params := P.EMPTY, dcs := [])
    case OscString => m.(osc := [], oscSplits := [])
    case _ => m
  }

  /** The fields of an OSC string: the pieces between the recorded splits, at most 16. */
  function OscFields(osc: seq<byte>, splits: seq<nat>, start: nat, taken: nat): seq<seq<byte>>
    requires start <= |osc|
    requires forall i :: 0 <= i < |splits| ==> start <= splits[i] <= |osc|
    requires forall i, j :: 0 <= i < j < |splits| ==> splits[i] <= splits[j]
    decreases splits
  {
    if taken >= MAX_OSC_PARAMS then []
    else if splits == [] then [osc[start..]]
    else [osc[start..splits[0]]] + OscFields(osc, splits[1..], splits[0], taken + 1)
  }

  function Collected(m: Machine, b: byte): Machine {
    if |m.intermediates| < MAX_INTERMEDIATES then m.(intermediates := m.intermediates + [b]) else m
  }

  function Perform(m: Machine, action: Action, b: byte): (r: (Machine, seq<Event>))
    requires m.Valid() && m.pending == []
    ensures r.0.Valid() && r.0.pending == []
  {
    match action
    case NoAction => (m, [])
    case Ignore => (m, [])
    case Print => (m, [Printed(b as char)])
    case Execute => (m, [Executed(b)])
    case Collect => (Collected(m, b), [])
    case Param => (m.(params := P.Param(m.params, b)), [])
    case EscDispatch =>
      if b == BACKSLASH && m.previous == OscString then
        (m, [Osc(OscFields(m.osc, m.oscSplits, 0, 0))])
      else if b == BACKSLASH && m.previous == DcsPassthrough then
        (m.(dcs := []), [Dcs(m.params.values, m.intermediates, 0, m.dcs)])
      else
        (m, [Esc(m.intermediates, b)])
    case CsiDispatch =>
      var m := m.(params := P.Finalize(m.params));
      (m, [Csi(m.params.values, m.intermediates, b)])
    case Hook => (Collected(m, b), [])
    case Put => (if |m.dcs| < MAX_DCS_LEN then m.(dcs := m.dcs + [b]) else m, [])
    case Unhook =>
      var n := |m.intermediates|;
      var final := if n > 0 then m.intermediates[n - 1] else 0;
      var intermediates := if n > 0 then m.intermediates[..n - 1] else [];
      var m' := m.(params := P.Finalize(m.params), dcs := []);
      (m', [Dcs(m'.params.values, intermediates, final, m.dcs)])
    case OscStart => (m.(osc := [], oscSplits := []), [])
    case OscPut =>
      (if b == P.SEMICOLON then m.(oscSplits := m.oscSplits + [|m.osc|])
       else if |m.osc| < MAX_OSC_LEN then m.(osc := m.osc + [b])
       else m, [])
    case OscEnd => (m, [Osc(OscFields(m.osc, m.oscSplits, 0, 0))])
  }

  /** A byte that goes through the state table. */
  function ProcessTable(m: Machine, b: byte): (r: (Machine, seq<Event>))
    requires m.Valid() && m.pending == []
    ensures r.0.Valid() && r.0.pending == []
  {
    var (action, next) := Transition(m.state, b);
    var m1 := if next == Escape && m.state != Escape then m.(previous := m.state) else m;
    var m2 := if next != m.state then Entered(m1, next) else m1;
    var (m3, es) := Perform(m2, action, b);
    (m3.(state := next), es)
  }

  function ProcessByte(m: Machine, b: byte): (r: (Machine, seq<Event>))
    requires m.Valid()
    ensures r.0.Valid()
  {
    if m.state == Ground && b >= 0x80 then
      ProcessUtf8(m, b)
    else if m.pending != [] then
      var (m', es) := ProcessTable(Flushed(m), b);
      (m', FlushEvents(m.pending) + es)
    else
      ProcessTable(m, b)
  }

  /** Everything a byte string makes the parser do. */
  function Run(m: Machine, input: seq<byte>): (r: (Machine, seq<Event>))
    requires m.Valid()
    ensures r.0.Valid()
    decreases input
  {
    if input == [] then (m, [])
    else
      var (m1, es1) := ProcessByte(m, input[0]);
      var (m2, es2) := Run(m1, input[1..]);
      (m2, es1 + es2)
  }
}
