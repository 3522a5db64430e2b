/** The state table of the escape-sequence parser: one total function from a state and a
    byte to an action and a state. */
module ParserTable {
  import opened Common

  datatype State =
    | Ground
    | Escape
    | EscapeIntermediate
    | CsiEntry
    | CsiParam
    | CsiIntermediate
    | CsiIgnore
    | DcsEntry
    | DcsParam
    | DcsIntermediate
    | DcsPassthrough
    | DcsIgnore
    | OscString
    | SosPmApcString

  datatype Action =
    | NoAction
    | Print
    | Execute
    | Collect
    | Param
    | EscDispatch
    | CsiDispatch
    | Hook
    | Put
    | Unhook
    | OscStart
    | OscPut
    | OscEnd
    | Ignore

  const CAN: byte := 0x18
  const SUB: byte := 0x1A
  const ESC: byte := 0x1B
  const DEL: byte := 0x7F
  const ST: byte := 0x9C

  predicate In(b: byte, lo: byte, hi: byte) {
    lo <= b <= hi
  }

  /** The C0 controls that are not CAN, SUB or ESC. */
  predicate IsControl(b: byte) {
    In(b, 0x00, 0x17) || b == 0x19 || In(b, 0x1C, 0x1F)
  }

  predicate IsIntermediate(b: byte) {
    In(b, 0x20, 0x2F)
  }

  predicate IsDigitOrSemicolon(b: byte) {
    In(b, 0x30, 0x39) || b == 0x3B
  }

  predicate IsPrivate(b: byte) {
    In(b, 0x3C, 0x3F)
  }

  predicate IsFinal(b: byte) {
    In(b, 0x40, 0x7E)
  }

  function Transition(state: State, b: byte): (Action, State) {
    // CAN, SUB, ESC and DEL mean the same everywhere.
    if b == CAN || b == SUB then (Execute, Ground)
    else if b == ESC then (NoAction, Escape)
    else if b == DEL then (Ignore, state)
    else match state
      case Ground => FromGround(b)
      case Escape => FromEscape(b)
      case EscapeIntermediate =>
        if IsControl(b) then (Execute, EscapeIntermediate)
        else if IsIntermediate(b) then (Collect, EscapeIntermediate)
        else if In(b, 0x30, 0x7E) then (EscDispatch, Ground)
        else (Ignore, Ground)
      case CsiEntry =>
        if IsControl(b) then (Execute, CsiEntry)
        else if IsIntermediate(b) then (Collect, CsiIntermediate)
        else if IsDigitOrSemicolon(b) then (Param, CsiParam)
        else if IsPrivate(b) then (Collect, CsiParam)
        else if IsFinal(b) then (CsiDispatch, Ground)
        else (Ignore, CsiIgnore)
      case CsiParam =>
        if IsControl(b) then (Execute, CsiParam)
        else if IsIntermediate(b) then (Collect, CsiIntermediate)
        else if IsDigitOrSemicolon(b) then (Param, CsiParam)
        else if IsFinal(b) then (CsiDispatch, Ground)
        else (Ignore, CsiIgnore)
      case CsiIntermediate =>
        if IsControl(b) then (Execute, CsiIntermediate)
        else if IsIntermediate(b) then (Collect, CsiIntermediate)
        else if IsFinal(b) then (CsiDispatch, Ground)
        else (Ignore, CsiIgnore)
      case CsiIgnore =>
        if IsControl(b) then (Execute, CsiIgnore)
        else if IsFinal(b) then (Ignore, Ground)
        else (Ignore, CsiIgnore)
      case DcsEntry =>
        if IsControl(b) then (Ignore, DcsEntry)
        else if IsIntermediate(b) then (Collect, DcsIntermediate)
        else if IsDigitOrSemicolon(b) then (Param, DcsParam)
        else if IsPrivate(b) then (Collect, DcsParam)
        else if IsFinal(b) then (Hook, DcsPassthrough)
        else (Ignore, DcsIgnore)
      case DcsParam =>
        if IsControl(b) then (Ignore, DcsParam)
        else if IsIntermediate(b) then (Collect, DcsIntermediate)
        else if IsDigitOrSemicolon(b) then (Param, DcsParam)
        else if IsFinal(b) then (Hook, DcsPassthrough)
        else (Ignore, DcsIgnore)
      case DcsIntermediate =>
        if IsControl(b) then (Ignore, DcsIntermediate)
        else if IsIntermediate(b) then (Collect, DcsIntermediate)
        else if IsFinal(b) then (Hook, DcsPassthrough)
        else (Ignore, DcsIgnore)
      case DcsPassthrough =>
        if IsControl(b) || In(b, 0x20, 0x7E) then (Put, DcsPassthrough)
        else if b == ST then (Unhook, Ground)
        else (Ignore, DcsPassthrough)
      case DcsIgnore =>
        if b == ST then (Ignore, Ground) else (Ignore, DcsIgnore)
      case OscString =>
        if b == 0x07 || b == ST then (OscEnd, Ground)
        else if In(b, 0x20, 0x7E) || In(b, 0xA0, 0xFF) then (OscPut, OscString)
        else (Ignore, OscString)
      case SosPmApcString =>
        if b == ST then (Ignore, Ground) else (Ignore, SosPmApcString)
  }

  /** Ground. The parser sends bytes from 0x80 up to the UTF-8 assembler instead, so the
      C1 rows here are reached only through the table itself. */
  function FromGround(b: byte): (Action, State) {
    if IsControl(b) || In(b, 0x80, 0x8F) || In(b, 0x91, 0x97) || b == 0x99 || b == 0x9A || b == ST then
      (Execute, Ground)
    else if In(b, 0x20, 0x7E) || In(b, 0xA0, 0xFF) then (Print, Ground)
    else if b == 0x90 then (NoAction, DcsEntry)
    else if b == 0x9B then (NoAction, CsiEntry)
    else if b == 0x9D then (OscStart, OscString)
    else if b == 0x98 || b == 0x9E || b == 0x9F then (NoAction, SosPmApcString)
    else (Ignore, Ground)
  }

  function FromEscape(b: byte): (Action, State) {
    if IsControl(b) then (Execute, Escape)
    else if IsIntermediate(b) then (Collect, EscapeIntermediate)
    else if In(b, 0x30, 0x4F) || In(b, 0x51, 0x57) || b == 0x59 || b == 0x5A || b == 0x5C || In(b, 0x60, 0x7E) then
      (EscDispatch, Ground)
    else if b == 0x50 then (NoAction, DcsEntry)
    else if b == 0x5B then (NoAction, CsiEntry)
    else if b == 0x5D then (OscStart, OscString)
    else if b == 0x58 || b == 0x5E || b == 0x5F then (NoAction, SosPmApcString)
    else (Ignore, Ground)
  }
}
