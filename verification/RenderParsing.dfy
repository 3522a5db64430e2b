/** From bytes back to events: the renderer's output, read by the parser. */
module RenderParsing {
  import opened Common
  import opened Parser
  import opened Render
  import P = Params
  import PP = ParserProperties
  import T = ParserTable

  /** The parser can take the token back: at most sixteen parameters and a final byte, or
      text it prints. */
  predicate Readable(t: Token) {
    match t
    case Control(_, params, final) => |params| <= P.MAX_PARAMS && T.IsFinal(final)
    case Text(text) => PP.AllPrintable(text)
  }

  predicate AllReadable(ts: seq<Token>) {
    forall i :: 0 <= i < |ts| ==> Readable(ts[i])
  }

  function EventsOf(t: Token): seq<Event> {
    match t
    case Control(private, params, final) => [Csi(P.SaturateAll(params), PP.Marker(private), final)]
    case Text(text) => Prints(text)
  }

  function Events(ts: seq<Token>): seq<Event> {
    if ts == [] then [] else EventsOf(ts[0]) + Events(ts[1..])
  }

  lemma {:induction false} EventsConcat(a: seq<Token>, b: seq<Token>)
    ensures Events(a + b) == Events(a) + Events(b)
  {
    hide EventsOf;
    if a == [] {
      assert a + b == b;
    } else {
      assert (a + b)[1..] == a[1..] + b;
      EventsConcat(a[1..], b);
    }
  }

  lemma EventsOne(t: Token)
    ensures Events([t]) == EventsOf(t)
  {
    hide EventsOf;
    assert [t][1..] == [];
    assert EventsOf(t) + [] == EventsOf(t);
  }

  lemma ReadableConcat(a: seq<Token>, b: seq<Token>)
    requires AllReadable(a) && AllReadable(b)
    ensures AllReadable(a + b)
  {
  }

  lemma ControlParses(m: Machine, private: bool, params: seq<nat>, final: byte)
    requires m.Valid() && m.Idle() && |params| <= P.MAX_PARAMS && T.IsFinal(final)
    ensures var (m', es) := Run(m, PP.CsiBytes(private, P.Join(params), final));
            m'.Idle() && es == [Csi(P.SaturateAll(params), PP.Marker(private), final)]
  {
    hide Run, PP.CsiBytes, P.Fields, P.Join, PP.Marker;
    PP.ControlSequenceDispatches(m, private, P.Join(params), final);
    assert PP.Interrupted(m) == [];
    var s := P.Join(params);
    P.PrintedParamsReadBack(params);
    P.ParamStringDenotesItsFields(s);
    var es := [Csi(P.SaturateAll(params), PP.Marker(private), final)];
    assert [] + es == es;
  }

  /** Printing tokens and reading the bytes gives their events, and leaves the parser ready
      for more. */
  lemma {:induction false} TokensParse(m: Machine, ts: seq<Token>)
    requires m.Valid() && m.Idle() && AllReadable(ts)
    ensures var (m', es) := Run(m, Bytes(ts)); m'.Idle() && es == Events(ts)
    decreases ts
  {
    hide TokenBytes, EventsOf, Run;
    if ts == [] {
      RunNothing(m);
    } else {
      TokenParses(m, ts[0]);
      var (m1, es1) := Run(m, TokenBytes(ts[0]));
      TokensParse(m1, ts[1..]);
      var (m2, es2) := Run(m1, Bytes(ts[1..]));
      PP.RunThen(m, TokenBytes(ts[0]), m1, es1, Bytes(ts[1..]), m2, es2);
    }
  }

  lemma TokenParses(m: Machine, t: Token)
    requires m.Valid() && m.Idle() && Readable(t)
    ensures var (m', es) := Run(m, TokenBytes(t)); m'.Idle() && es == EventsOf(t)
  {
    hide Run;
    match t
    case Control(private, params, final) => ControlParses(m, private, params, final);
    case Text(text) => PP.TextPrintsItself(m, text);
  }

  lemma RunNothing(m: Machine)
    requires m.Valid()
    ensures Run(m, []) == (m, [])
  {
  }
}
