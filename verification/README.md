# Verified model of teamucks

teamucks is a terminal multiplexer: a server runs programs in panes, emulates a terminal for
each, and sends what the panes show to clients that draw it on their own terminals. This
project models its four parts that carry the hard guarantees and proves those guarantees with
Dafny 4.11; `dafny verify dfyconfig.toml` checks everything, and no proof relies on automatic
induction.

**The terminal emulator** (`crates/teamucks-vte`). The byte parser, the performer that acts on
parsed sequences, and the grid with its cursor, scroll region, alternate screen, tab stops,
history and reflow. Each is written twice: as a function on values (`Parser`, `Params`,
`PackedStyles`, `Scrollback`, `Reflow`, `Grids`, `Terminals`) and as a class or loop that
updates its fields in place as the Rust code does (`ParserObject`, `ParamBuffers`,
`ScrollbackBuffers`, `ReflowLoops`, `GridObject`, `TerminalObject`). Every method is proved to
take its abstract value to the function's result, and the properties are proved about the
functions: what text and control sequences parse to, that wide characters stay paired over
every run, that reflow keeps the text and forgets the path it took, that the cursor stays on
its cell, that the alternate screen restores the primary one. `Typing` joins all of it: what a
terminal shows after printing lines of text is those lines wrapped by reflow, so printing at one
size and resizing shows what printing at the other size shows; `Retyping` says when the two
terminals are the same, cursor and all. `Excursions` says when a screen
survives a change of width and back. `Sequences` says what every other kind of byte sequence parses
to, `TerminalSequences` what titles, saved cursors, modes and character sets come to, `SgrLaws` and
`Commands` what style, cursor, erase, scroll and tab commands mean, by laws that relate them to each
other, and `Writing` what happens at the edges of a row.

**The renderer** (`crates/teamucks-core/src/render`). Frames and diffs become tokens (cursor
position, style, text), tokens become bytes, and the emulator above reads the bytes back.
`ClosedLoopFrames` closes the loop: a terminal that is sent a frame shows exactly that frame,
and stays in step over any number of diffs. `AtomicFrames` shows that no part of a frame is ever
seen, however its bytes are cut. `WideFrames` and `WideDiffs` say exactly when the loop closes for
wide characters. `StyleCache` shows that caching the style cannot be told from resetting
it before every cell.

**The layout engine** (`crates/teamucks-core/src/layout`, `render/borders.rs`). A binary tree of
splits is resolved to rectangles by clamped arithmetic. Over every run of splits, closes, swaps,
zooms and window growth the rectangles tile the window, and the border cells are exactly what
the panes leave free. Saved layouts are read back.

**The wire protocol** (`crates/teamucks-core/src/protocol`). Encoders append to a byte buffer,
decoders advance a cursor, and the codec cuts frames out of a stream that arrives in arbitrary
pieces. Messages survive exactly when their counts fit 16 bits. `WireVerdicts` shows that a message
cut short is never taken for anything else, and `WireBounds` that "truncated" is the only verdict
that is not final. `EndToEnd` puts everything together: frames sent as messages over a stream and
rendered by a client end up on its screen.

Standards: ECMA-48 (5th edition) section 5.4 for control sequences, 8.3.21 for CUP and 8.3.117
for SGR; RFC 3629 section 3 for UTF-8.

## Findings

Some promises do not hold as documented; the code is modelled as it is. Each has a lemma that says
exactly when the promise is kept and, in `Witnesses` unless another module is named, a case in
which it is not.

- A resize does not clamp the cursor saved by DECSC, so restoring it can leave the screen. The
  grid stays valid exactly when the saved cursor lies within the new size (`Grids.ResizeValid`,
  `SavedCursorCanBeLost`); until it is restored, nothing else goes wrong
  (`TerminalProperties.RunKeepsPairing`).
- Resizing away and back to the same width is not the identity, since an unchanged width copies
  rows while a changed one reflows. It is exactly on settled screens
  (`Excursions.ExcursionIsIdentityIff`, `ExcursionCanChangeTheScreen`), and a second excursion
  always is (`Excursions.ExcursionsSettle`). A change of height alone drops the rows below the new
  height instead of moving rows into the history (`GridProperties.HeightExcursionIff`).
- Trailing spaces are dropped by a change of width, so a text that ends in spaces is not always
  shown as if it had been printed at the new width (`Typing.ResizedIsRetypedIff`,
  `TrailingSpaceCanBeLost`).
- A text that fills its last row, before a change of width or after it, leaves the cursor on its last
  cell without the pending wrap, or at the start of that row, so that what is typed next overwrites
  it (`Retyping.ResizedTerminalIsRetypedIff`, `CursorIsOnTheText`).
- Reflow gives the second half of a wide character the plain style, whatever style the terminal
  wrote it in (`ReflowProperties.CanonicalIff`, `StyledPairIsNotKept`). A frame in which that has
  happened is not what a client shows, its second halves taking after their first
  (`WideFrames.FullFrameLoopIff`).
- A diff that writes a wide character cell by cell also sends the space of its second half, which
  wipes the character out (`WideDiffs.WideDiffLoopIff`, `WideCharacterIsLost`).
- Panes below the minimum size can be created by splitting while a pane is zoomed, because the
  check then measures the window (`LayoutTiling.ZoomedSplitFitsIff`,
  `LayoutTiling.ZoomedSplitCanOverflow`).
- A split ratio above 1 is accepted, because the check of the second share wraps around, and is
  then clamped (`LayoutTiling.AcceptedRatioIsExactIff`, `RatioAboveOneIsClamped`).
- UTF-8 titles are cut up: the parser drops the bytes 0x80 to 0x9F from OSC strings, and 0x9C ends
  them, so a title is what was sent exactly when it has none of these and no semicolon
  (`TerminalSequences.TitleIsTextIff`, `TitleLosesBytes`).
- Control sequences with a marker other than `?`, or with intermediates, are not ignored but taken
  for the sequence without them (`TerminalSequences.OtherMarkersAreIgnored`,
  `MarkedSequenceUnderlines`).
- The final byte of a device-control string is stored behind its marker and intermediates, of which
  only two are kept, so with two or more of them another byte is reported for it
  (`Sequences.DcsParses`).
- A true colour that breaks off is not skipped, as the comment on the parser of extended colours has
  it (`crates/teamucks-vte/src/terminal.rs:202-217`): its components act as codes
  (`SgrLaws.CutColorIsMisread`, `SgrLaws.CutColorCanMakeBold`).
- Restoring a cursor restores its visibility but not the mode that says so; every other event keeps
  the two in agreement (`TerminalSequences.VisibilityKeptIff`, `HiddenCursorIsShown`).
- A combining character joins the cell to the left of the cursor, which is not always where the
  character before it went (`Writing.CombiningJoinsIff`, `MarkMissesWideCharacter`).
- A wide character that does not fit into the last column can blank the second half of another
  (`Writing.LastCellFilledIff`, `SecondHalfIsBlanked`).
- Encoder counts saturate at 65535, so longer strings and lists, and whole screens of more than
  65535 cells, do not survive (`WireProperties.ServerRoundTripIff`,
  `WireProperties.LongStatusIsCut`, `EndToEnd.FullFrameSendableIff`, `LargeFrameCannotBeSent`).
- Saved layouts keep ratios only to hundredths (`LayoutText.RoundTripIsExactIff`,
  `ThirdIsRounded`).

## Model

| member | source | states |
|---|---|---|
| ParserObject.VteParser.ProcessByte | crates/teamucks-vte/src/parser.rs:157-190 | one byte takes the parser from its state to the state and events of the pure machine: C0 handling, pending UTF-8, high bytes and the table |
| ParserObject.VteParser.Advance | crates/teamucks-vte/src/parser.rs:149-154 | feeding a slice is feeding its bytes one by one; the emitted events are exactly those of the machine |
| ParserObject.VteParser.ProcessUtf8 | crates/teamucks-vte/src/parser.rs:195-231 | leading, continuation and stray bytes of a sequence, with the expected length |
| ParserObject.VteParser.FlushUtf8 | crates/teamucks-vte/src/parser.rs:234-249 | a pending sequence prints the scalars it decodes to, or one replacement character, and is cleared |
| ParserObject.VteParser.PerformAction | crates/teamucks-vte/src/parser.rs:284-412 | what each table action does to parameters, intermediates and OSC/DCS buffers, and which events it emits |
| ParserObject.VteParser.PerformEntryAction | crates/teamucks-vte/src/parser.rs:255-281 | what entering a state clears |
| ParserObject.VteParser.DispatchOsc | crates/teamucks-vte/src/parser.rs:417-452 | the OSC buffer is cut at semicolons into at most the allowed fields |
| ParserProperties.RunConcat | crates/teamucks-vte/src/parser.rs:149-154 | splitting the input anywhere changes neither the state nor the events |
| ParserProperties.TextPrintsItself | crates/teamucks-vte/src/parser.rs:195-249 | the UTF-8 encoding of any text of U+0020..U+007E and U+0080 upward prints exactly that text and leaves the parser as it was (RFC 3629, section 3) |
| ParserProperties.CutShort | crates/teamucks-vte/src/parser.rs:157-249 | a UTF-8 sequence cut short by anything but its continuation prints one replacement character, and from there on the parser acts as if it had never begun |
| ParserProperties.TextAfterACut | crates/teamucks-vte/src/parser.rs:157-249 | text that follows a cut sequence is printed whole: the decoder synchronizes itself at the next character (RFC 3629, section 3) |
| ParserProperties.ControlSequenceDispatches | crates/teamucks-vte/src/parser.rs:316-357 | `ESC [`, an optional `?`, any string of digits and semicolons and a final byte emit one CSI dispatch whose parameters are the first sixteen fields of the string (ECMA-48, section 5.4), from any state |
| Sequences.AnySequenceDispatches | crates/teamucks-vte/src/parser.rs:316-357 | with any marker and any intermediates, too, there is one dispatch, with the first two of marker and intermediates |
| Sequences.SpoiledIsSkipped | crates/teamucks-vte/src/parser/table.rs:94-130 | a control sequence with a colon, or with a marker behind a parameter, is skipped up to its final byte |
| Sequences.OscParses | crates/teamucks-vte/src/parser.rs:395-452 | `ESC ]`, any bytes that do not end it, and BEL, 0x9C or `ESC \` emit, from any state, what was interrupted and one OSC callback with the first sixteen semicolon fields of the bytes that are kept; the parser is idle |
| Sequences.FieldsParse | crates/teamucks-vte/src/parser.rs:395-452 | up to sixteen fields of kept bytes without semicolons, joined by semicolons and within 65536 bytes, are reported one by one |
| Sequences.DcsParses | crates/teamucks-vte/src/parser.rs:324-393 | a device-control string makes one callback: with the fields of its parameters, its marker and intermediates, its final byte and its data when 0x9C ends it, where with two or more of marker and intermediates the second is taken for the final byte; with its data only when `ESC \` ends it |
| Sequences.StringIsIgnored | crates/teamucks-vte/src/parser/table.rs:197-204 | nothing in an SOS, PM or APC string is printed or acted on |
| Sequences.EscapeDispatches | crates/teamucks-vte/src/parser.rs:324-353 | ESC, up to two intermediates and a final byte emit one callback, from any state that bytes lead to |
| Sequences.ReachedIsClean | crates/teamucks-vte/src/parser.rs:255-281 | every machine that bytes lead to is such a state |
| Sequences.ControlInsideSequence | crates/teamucks-vte/src/parser.rs:284-320 | a control among the parameters of a sequence is executed first, and the sequence is dispatched as if it had not been there |
| Sequences.CancelFromAnywhere | crates/teamucks-vte/src/parser/table.rs:36-48 | CAN and SUB end whatever has begun and are executed |
| Sequences.DelIsIgnored | crates/teamucks-vte/src/parser/table.rs:36-48 | DEL does nothing but cut a UTF-8 sequence short |
| Utf8.DecodesExactlyItsEncoding | crates/teamucks-vte/src/parser.rs:234-249 | bytes decode to a string exactly when they are its encoding |
| Params.ParamStringDenotesItsFields | crates/teamucks-vte/src/params.rs:68-120 | digit by digit accumulation with saturation denotes the first sixteen semicolon fields, each min(value, 65535), empty meaning 0 |
| Params.PrintedParamsReadBack | crates/teamucks-vte/src/params.rs:68-120 | printing at most sixteen numbers and reading them back is the identity up to saturation |
| Params.DigitsAccumulate | crates/teamucks-vte/src/params.rs:68-80 | saturating at every digit is saturating once at the end |
| ParamBuffers.ParamBuffer.AddDigit | crates/teamucks-vte/src/params.rs:68-80 | one digit on the fixed sixteen-slot buffer |
| ParamBuffers.ParamBuffer.FinishParam | crates/teamucks-vte/src/params.rs:84-98 | a separator stores the current value unless sixteen are stored |
| ParamBuffers.ParamBuffer.Finalize | crates/teamucks-vte/src/params.rs:103-113 | a trailing value is stored exactly when something was begun |
| PackedStyles.ColorReadsBack | crates/teamucks-vte/src/style.rs:125-153 | every colour survives its tag and data bytes; a named colour comes back as the palette index it shares |
| PackedStyles.ForegroundReadsBack | crates/teamucks-vte/src/style.rs:157-216 | setting the foreground in the 64-bit word is read back and leaves background and attributes |
| PackedStyles.BackgroundReadsBack | crates/teamucks-vte/src/style.rs:157-216 | setting the background is read back and leaves foreground and attributes |
| PackedStyles.AttrsReadBack | crates/teamucks-vte/src/style.rs:240-268 | the attribute bits are independent of the colours |
| AttrNumbers.NumbersInverse | crates/teamucks-core/src/pane.rs:392-407 | the attribute bits of a cell and the number sent for them determine each other |
| PackedStyles.PackedStyle.SetForeground | crates/teamucks-vte/src/style.rs:221-223 | the packed word represents the style with its foreground replaced |
| PackedStyles.PackedStyle.SetBackground | crates/teamucks-vte/src/style.rs:226-228 | the packed word represents the style with its background replaced |
| PackedStyles.PackedStyle.SetAttr | crates/teamucks-vte/src/style.rs:254-258 | the packed word represents the style with one attribute added |
| PackedStyles.PackedStyle.ClearAttr | crates/teamucks-vte/src/style.rs:261-265 | the packed word represents the style with one attribute removed |
| Scrollback.PushAllExtendsTape | crates/teamucks-vte/src/scrollback.rs:91-100 | pushing any number of rows appends them to the tape and forgets only the oldest rows beyond the capacity |
| Scrollback.SetMaxLinesKeepsNewest | crates/teamucks-vte/src/scrollback.rs:225-230 | a lower capacity forgets the oldest rows, and only those beyond it |
| ScrollbackBuffers.ScrollbackBuffer.Push | crates/teamucks-vte/src/scrollback.rs:91-100 | the deque after a push |
| ScrollbackBuffers.ScrollbackBuffer.SetMaxLines | crates/teamucks-vte/src/scrollback.rs:225-230 | lowering the capacity keeps the newest rows |
| GridObject.GridBuffer.constructor | crates/teamucks-vte/src/grid.rs:137-158 | a new grid: blank rows, home cursor, full region, tab stops every eight columns |
| GridObject.GridBuffer.WriteChar | crates/teamucks-vte/src/grid.rs:470-562 | writing a character of width 0, 1 or 2: combining, pending wrap, clearing split pairs, the wide character at the last column, auto-wrap off |
| GridObject.GridBuffer.ResolvePendingWrap | crates/teamucks-vte/src/grid.rs:566-581 | a pending wrap marks the row soft-wrapped and moves to the next, or stays when auto-wrap is off |
| GridObject.GridBuffer.ClearWideAt | crates/teamucks-vte/src/grid.rs:626-643 | overwriting half of a pair blanks the other half |
| GridObject.GridBuffer.ScrollUpInRegion | crates/teamucks-vte/src/grid.rs:765-796 | the region scrolls up; only a full-screen scroll of the primary screen feeds the history |
| GridObject.GridBuffer.ScrollDownInRegion | crates/teamucks-vte/src/grid.rs:799-811 | the region scrolls down |
| GridObject.GridBuffer.EraseRange | crates/teamucks-vte/src/grid.rs:847-865 | erasing a range and the halves of pairs that stick out of it |
| GridObject.GridBuffer.EraseBelow | crates/teamucks-vte/src/grid.rs:871-885 | from the cursor to the end of the screen |
| GridObject.GridBuffer.EraseAbove | crates/teamucks-vte/src/grid.rs:891-908 | from the start of the screen to the cursor |
| GridObject.GridBuffer.EraseChars | crates/teamucks-vte/src/grid.rs:955-970 | a number of cells from the cursor, clamped to the row |
| GridObject.GridBuffer.EnterAlternateScreen | crates/teamucks-vte/src/grid.rs:702-731 | stashes rows, cursor and region and shows a blank screen; nothing when already there |
| GridObject.GridBuffer.ExitAlternateScreen | crates/teamucks-vte/src/grid.rs:736-744 | restores the stash verbatim |
| GridObject.GridBuffer.Resize | crates/teamucks-vte/src/grid.rs:321-381 | width changes of the primary screen reflow screen and history; everything else is cut or padded |
| GridObject.GridBuffer.BasicResize | crates/teamucks-vte/src/grid.rs:387-439 | cut or pad rows, clamp cursor and stash, reset the region, rebuild tab stops |
| Grids.ResizeValid | crates/teamucks-vte/src/grid.rs:321-439 | a resize yields a valid grid exactly when a saved cursor still lies on the screen |
| GridProperties.ScrollUpExtendsTape | crates/teamucks-vte/src/grid.rs:765-796 | history then screen: a full-screen scroll by k appends k blank rows and forgets only the oldest rows beyond capacity |
| GridProperties.ScrollsAdd | crates/teamucks-vte/src/grid.rs:765-811 | scrolling by a and then by b is scrolling by a + b, in both directions and for every region; the history too, unless the whole region has gone by |
| GridProperties.ScrollUndoneIff | crates/teamucks-vte/src/grid.rs:765-811 | a scroll is undone by the opposite one exactly when only blank rows left the region; only a scroll of the whole primary screen feeds the history |
| GridProperties.HeightExcursionIff | crates/teamucks-vte/src/grid.rs:387-439 | coming back to the old height restores the screen exactly when the rows cut off were blank; the history is untouched |
| GridProperties.ResizeSetting | crates/teamucks-vte/src/grid.rs:321-439 | any resize keeps the tab stops that remain and puts new ones in every eighth new column, makes the whole screen the region, and keeps modes, saved cursor, style and capacity |
| GridProperties.BasicResizeCells | crates/teamucks-vte/src/grid.rs:387-439 | on the alternate screen, or at the same width, every cell of both screens stays in place, what is cut is gone and what is new is blank, and cursors are moved no further than needed |
| GridProperties.ReflowTape | crates/teamucks-vte/src/grid.rs:321-381 | without eviction, a width change shows the same text |
| GridProperties.ResizePathIndependence | crates/teamucks-vte/src/grid.rs:321-381 | resizing to one width and then to another gives the same screen and history, soft-wrap flags included, as resizing straight there |
| Excursions.ExcursionIsIdentityIff | crates/teamucks-vte/src/grid.rs:321-381 | leaving a width and coming back restores screen and history exactly when they were settled: every row full up to its text, soft-wrapped exactly when its line goes on, plain blanks behind, no content missing from the screen |
| Excursions.SettledRowsStay | crates/teamucks-vte/src/reflow.rs:289-430 | rows that are settled are re-wrapped to themselves |
| Excursions.ExcursionsSettle | crates/teamucks-vte/src/grid.rs:321-381 | after one excursion every further excursion restores the screen and the history exactly |
| Witnesses.ExcursionCanChangeTheScreen | crates/teamucks-vte/src/grid.rs:321-381 | a new terminal of one cell, fed a letter and a line feed, shows something else after an excursion |
| Witnesses.SavedCursorCanBeLost | crates/teamucks-vte/src/grid.rs:321-439 | a new terminal that is fed bytes which move and save the cursor, and is then resized, holds a saved cursor off its screen |
| GridProperties.CursorStaysOnItsCell | crates/teamucks-vte/src/grid.rs:321-381 | the cell under the cursor after a width change is the cell under it before, if the cursor is within the text and its row still visible |
| Cells.ResizeKeepsPairing | crates/teamucks-vte/src/grid.rs:387-393 | cutting or padding a row keeps its pairs exactly when no pair is cut |
| GridPairing.WriteCharPaired | crates/teamucks-vte/src/grid.rs:470-643 | writing any character anywhere keeps wide characters paired |
| Writing.LastCellFilledIff | crates/teamucks-vte/src/grid.rs:493-515 | the blank that a wide character leaves in the last column keeps the row's pairs whole exactly when the cell was no second half |
| Witnesses.SecondHalfIsBlanked | crates/teamucks-vte/src/grid.rs:493-515 | two wide characters on two columns: the first is left without its second half |
| Writing.CombiningJoinsIff | crates/teamucks-vte/src/grid.rs:473-478 | a combining character joins the character before it exactly when that is narrow and not in the last column, or wide and in it |
| Writing.CombiningInFirstColumn | crates/teamucks-vte/src/grid.rs:601-617 | in the first column it joins the last cell of the row above, in the corner none |
| Witnesses.MarkMissesWideCharacter | crates/teamucks-vte/src/grid.rs:601-617 | a mark behind a wide character joins its second half |
| Writing.WrapIsNewLine | crates/teamucks-vte/src/grid.rs:566-596 | resolving a pending wrap is a carriage return and a line feed from a row marked as continued, in any scroll region |
| Writing.TextStaysInRow | crates/teamucks-vte/src/grid.rs:484-496 | with auto-wrap off a text stays in its row: each character behind the one before, and in the last column over it |
| GridPairing.ClearWidePaired | crates/teamucks-vte/src/grid.rs:626-643 | after clearing, the cell is narrow and nothing to its left changed unless it was a continuation |
| GridPairing.EraseRangePaired | crates/teamucks-vte/src/grid.rs:847-865 | erasing keeps pairs |
| GridPairing.ScrollUpPaired | crates/teamucks-vte/src/grid.rs:765-796 | scrolling keeps pairs on screen and in history |
| GridPairing.ReflowPaired | crates/teamucks-vte/src/grid.rs:321-381 | every reflowed screen is paired, even if the input was not |
| GridPairing.ResizePaired | crates/teamucks-vte/src/grid.rs:321-439 | a resize keeps pairs; on the alternate screen exactly when no pair is cut |
| ReflowLoops.CollectLogicalLines | crates/teamucks-vte/src/reflow.rs:39-71 | the loop that joins soft-wrapped rows |
| Reflow.CollectAllGivesLines | crates/teamucks-vte/src/reflow.rs:39-71 | the loop result is the list of logical lines |
| ReflowLoops.TrimTrailingBlankCells | crates/teamucks-vte/src/reflow.rs:435-446 | drops exactly the trailing blanks |
| ReflowLoops.RewrapLine | crates/teamucks-vte/src/reflow.rs:82-172 | the rewrapping loop, which may stay on a cell when a wide character does not fit |
| ReflowProperties.RewrapShape | crates/teamucks-vte/src/reflow.rs:82-172 | every row has the new width, exactly the non-final rows are soft-wrapped, every row is perfectly paired |
| ReflowProperties.RewrapKeepsContent | crates/teamucks-vte/src/reflow.rs:82-172 | for widths of at least two, the leading cells survive in order; only a blank before a moved wide character and final padding are added |
| ReflowProperties.CanonicalIff | crates/teamucks-vte/src/reflow.rs:82-172 | a line is kept cell for cell exactly when its wide characters are paired and their second halves carry no style |
| Witnesses.StyledPairIsNotKept | crates/teamucks-vte/src/reflow.rs:82-172 | a wide character written in a style loses that of its second half when its line is re-wrapped |
| ReflowLoops.CursorOffsetInLines | crates/teamucks-vte/src/reflow.rs:188-227 | line and offset of the cursor |
| ReflowLoops.CursorFromOffset | crates/teamucks-vte/src/reflow.rs:232-272 | row and column of an offset |
| ReflowLoops.ReflowRows | crates/teamucks-vte/src/reflow.rs:289-430 | collect, trim, rewrap, drop trailing blank rows, split into history and screen, place the cursor |
| ReflowText.ReflowKeepsText | crates/teamucks-vte/src/reflow.rs:289-430 | history and screen after a reflow show the text they showed before |
| ReflowText.TextDeterminesReflow | crates/teamucks-vte/src/reflow.rs:289-430 | rows with the same text reflow to the same rows |
| ReflowText.ReflowPathIndependence | crates/teamucks-vte/src/reflow.rs:289-430 | an intermediate size makes no difference |
| ReflowCursor.CursorKeepsItsCell | crates/teamucks-vte/src/reflow.rs:188-272 | the cursor stays on its cell |
| TerminalObject.StateObject.ApplySgr | crates/teamucks-vte/src/terminal.rs:96-213 | the loop over the codes, extended colours included, sets the style the codes denote |
| TerminalObject.StateObject.ApplyCursorMovement | crates/teamucks-vte/src/terminal.rs:258-334 | cursor movements and their clamping |
| TerminalObject.StateObject.CursorPosition | crates/teamucks-vte/src/terminal.rs:258-334 | absolute positioning, relative to the region in origin mode |
| TerminalObject.StateObject.ApplyPrivateMode | crates/teamucks-vte/src/terminal.rs:339-414 | each private mode, the alternate screen included |
| TerminalObject.StateObject.ApplyScrollRegion | crates/teamucks-vte/src/terminal.rs:421-483 | DECSTBM and the scroll commands |
| TerminalObject.StateObject.Execute | crates/teamucks-vte/src/terminal.rs:507-567 | C0 controls |
| TerminalObject.StateObject.Print | crates/teamucks-vte/src/terminal.rs:487-502 | printing with the active character set |
| TerminalObject.StateObject.Csi | crates/teamucks-vte/src/terminal.rs:572-704 | dispatch of control sequences |
| TerminalObject.StateObject.Esc | crates/teamucks-vte/src/terminal.rs:709-783 | dispatch of escape sequences |
| TerminalObject.TerminalDevice.Feed | crates/teamucks-vte/src/terminal.rs:880-883 | feeding a slice takes parser and state to those of the pure terminal; a saved cursor off the screen matters only to a sequence that restores it |
| TerminalObject.TerminalDevice.Resize | crates/teamucks-vte/src/terminal.rs:928-930 | resizing the terminal |
| TerminalProperties.FeedConcat | crates/teamucks-vte/src/terminal.rs:880-883 | how the input is split into calls makes no difference |
| TerminalProperties.FeedKeepsPairing | crates/teamucks-vte/src/terminal.rs:880-883 | no input can break a pair |
| TerminalProperties.RunKeepsPairing | crates/teamucks-vte/src/terminal.rs:857-930 | nor can any interleaving of resizes that do not cut the alternate screen and inputs that restore no cursor saved off the screen |
| TerminalProperties.ReachableIsPaired | crates/teamucks-vte/src/terminal.rs:857-930 | in every state such a run reaches from a new terminal wide characters are paired, and every index is within the screen |
| TerminalProperties.ShrinkingPastSavedCursor | crates/teamucks-vte/src/terminal.rs:928-930 | a resize past a saved cursor leaves that cursor outside the screen |
| AlternateScreenBracket.BracketRestores | crates/teamucks-vte/src/terminal.rs:339-363 | entering through mode 1049, any bytes that do not leave it, and leaving restore the primary rows, cursor, region and history verbatim |
| AlternateScreenBracket.EnterShowsBlank | crates/teamucks-vte/src/terminal.rs:339-363 | entering shows a blank screen with the cursor home, plain and visible, and the whole screen as the region; entering twice is entering once |
| TerminalSequences.SequenceFed | crates/teamucks-vte/src/terminal.rs:572-704 | a control sequence with up to sixteen printed parameters, fed to an idle terminal, does what its dispatch does |
| TerminalSequences.EscapeFed | crates/teamucks-vte/src/terminal.rs:709-783 | and an escape sequence what its own does |
| TerminalSequences.OtherMarkersAreIgnored | crates/teamucks-vte/src/terminal.rs:572-584 | a sequence with another marker than `?`, or with intermediates, does what the one without them does |
| Witnesses.MarkedSequenceUnderlines | crates/teamucks-vte/src/terminal.rs:572-584 | `ESC [ > 4 m` underlines |
| TerminalSequences.TitleIsSet | crates/teamucks-vte/src/terminal.rs:788-799 | OSC 0 and 2 set the title to the text up to its first semicolon, less the bytes the parser drops, whichever way the string ends, and change nothing else |
| TerminalSequences.TitleIsTextIff | crates/teamucks-vte/src/terminal.rs:788-799 | which is the text itself exactly when it has no semicolon and no byte below 0x20 or from 0x7F to 0x9F |
| TerminalSequences.OtherCommandsAreIgnored | crates/teamucks-vte/src/terminal.rs:788-799 | other commands, and commands without a text, change nothing |
| Witnesses.TitleLosesBytes | crates/teamucks-vte/src/terminal.rs:788-799 | a title of one accented letter becomes half of its UTF-8 encoding |
| TerminalSequences.SavedCursorReturns | crates/teamucks-vte/src/grid.rs:279-293 | whatever happens between saving and restoring, the cursor comes back with position, style, visibility and pending wrap; a second restore does nothing |
| TerminalSequences.NumbersNameModes | crates/teamucks-vte/src/terminal.rs:365-379 | private modes and their numbers determine each other |
| TerminalSequences.ModesSet | crates/teamucks-vte/src/terminal.rs:365-401 | setting or resetting a list of modes turns on or off exactly those that are named, and touches nothing but modes and cursor |
| TerminalSequences.ModeMovesCursor | crates/teamucks-vte/src/terminal.rs:386-414 | origin mode homes the cursor, into the region when set; setting auto-wrap cancels a pending wrap; otherwise the cursor stays |
| TerminalSequences.VisibilityKeptIff | crates/teamucks-vte/src/terminal.rs:342-363 | that the cursor is visible exactly when its mode is set is kept by every event, except by restoring a cursor saved with the other visibility |
| TerminalSequences.VisibilityOverRuns | crates/teamucks-vte/src/terminal.rs:342-363 | so it holds after any events that restore no cursor |
| Witnesses.HiddenCursorIsShown | crates/teamucks-vte/src/terminal.rs:342-363 | saving, hiding and restoring shows the cursor while its mode is off |
| TerminalSequences.LineDrawingPrintsGlyphs | crates/teamucks-vte/src/terminal.rs:487-502 | a text between the designations of line drawing and ASCII is printed as its glyphs |
| TerminalSequences.ShiftedPrintsGlyphs | crates/teamucks-vte/src/terminal.rs:487-537 | so is a text between SO and SI when the second set is for line drawing |
| TerminalSequences.LettersDrawLines | crates/teamucks-vte/src/charsets.rs:35-54 | each line-drawing letter becomes the box-drawing character with its arms |
| SgrLaws.NamedColorsAreIndexed | crates/teamucks-vte/src/terminal.rs:143-195 | 30-37, 90-97, 40-47 and 100-107 set what the indexed forms of the first sixteen colours set |
| SgrLaws.IndexedColors | crates/teamucks-vte/src/terminal.rs:215-256 | 38;5;n and 48;5;n set foreground and background to the indexed colour, clamped to 255 |
| SgrLaws.RgbColors | crates/teamucks-vte/src/terminal.rs:215-256 | 38;2;r;g;b and 48;2;r;g;b the same for true colours |
| SgrLaws.DefaultColors | crates/teamucks-vte/src/terminal.rs:160-191 | 39 and 49 forget the colour and nothing else |
| SgrLaws.NothingIsReset | crates/teamucks-vte/src/terminal.rs:96-110 | no code at all, and 0, give the plain style |
| SgrLaws.OnAdds | crates/teamucks-vte/src/terminal.rs:113-123 | an on code adds to any style the attribute it gives to plain text |
| SgrLaws.OffClears | crates/teamucks-vte/src/terminal.rs:125-141 | an off code clears exactly the attributes of its on codes and leaves everything else |
| SgrLaws.OffUndoesOn | crates/teamucks-vte/src/terminal.rs:125-141 | also right behind an on code |
| SgrLaws.CodesCompose | crates/teamucks-vte/src/terminal.rs:96-213 | a sequence of codes does what its parts do one after the other |
| SgrLaws.IgnoredCode | crates/teamucks-vte/src/terminal.rs:194-196 | unknown codes, and 38 or 48 alone, change nothing |
| SgrLaws.CutColorIsMisread | crates/teamucks-vte/src/terminal.rs:215-256 | a true colour that breaks off is not skipped: its components act as codes |
| SgrLaws.CutColorCanMakeBold | crates/teamucks-vte/src/terminal.rs:215-256 | one component of 1 makes the text bold |
| Commands.DisplayErased | crates/teamucks-vte/src/terminal.rs:596-612 | ED: which cells each parameter blanks, by their place relative to the cursor |
| Commands.LineErased | crates/teamucks-vte/src/terminal.rs:614-630 | EL: the same within the row |
| Commands.CharsErased | crates/teamucks-vte/src/terminal.rs:632-640 | ECH: the cells from the cursor on, and halves that stick out |
| Commands.LinesAreSteps | crates/teamucks-vte/src/terminal.rs:290-304 | next and previous line are steps and then the first column |
| Commands.AbsolutesAreSteps | crates/teamucks-vte/src/terminal.rs:306-333 | an absolute column or row is reached by steps from the first |
| Commands.PositionIsColumnAndRow | crates/teamucks-vte/src/terminal.rs:315-333 | a position is a column and a row; in origin mode the row counts from the top of the region and does not leave it |
| Commands.DefaultCounts | crates/teamucks-vte/src/terminal.rs:258-334 | absent and zero counts are one |
| Commands.ControlsAreMoves | crates/teamucks-vte/src/terminal.rs:509-563 | carriage return is column 1; backspace is one step to the left, exactly unless in the first column with a wrap pending |
| Commands.IndexUndoneIff | crates/teamucks-vte/src/terminal.rs:751-781 | index and then reverse index give the screen back exactly when no wrap was pending and the cursor went down without scrolling or leaving the rows above the region, or the region is one blank row |
| Commands.ReverseIndexUndoneIff | crates/teamucks-vte/src/terminal.rs:751-781 | the same the other way round |
| Commands.IndexScrolls | crates/teamucks-vte/src/terminal.rs:751-781 | at the edge of the region they scroll it by one |
| Commands.IndexSteps | crates/teamucks-vte/src/terminal.rs:751-781 | elsewhere they are steps down and up |
| Commands.FeedsAreIndex | crates/teamucks-vte/src/terminal.rs:541-557 | line feed, vertical tab, form feed and index are one |
| Commands.RegionIsSetIff | crates/teamucks-vte/src/terminal.rs:421-466 | DECSTBM sets the region and homes the cursor exactly for at least two rows of the screen |
| Commands.RegionScrolls | crates/teamucks-vte/src/terminal.rs:468-482 | SU and SD move the rows of the region, and no others, and fill up with blank ones |
| Commands.NextStopIsFirst | crates/teamucks-vte/src/tabstops.rs:48-57 | a tab goes to the first stop behind the cursor, or to the last column |
| Commands.PrevStopIsLast | crates/teamucks-vte/src/tabstops.rs:63-74 | a backward tab to the last stop before it, or to the first column |
| Commands.TabsAreSteps | crates/teamucks-vte/src/terminal.rs:642-679 | a count of tabs is that many tabs |
| Commands.StopsSetAndCleared | crates/teamucks-vte/src/terminal.rs:681-699 | HTS adds a stop under the cursor; TBC removes that one, or all, and does nothing with any other parameter |
| Commands.TabOnNewGrid | crates/teamucks-vte/src/tabstops.rs:28-57 | on a new screen a tab goes to the next multiple of eight, or to the last column |
| Commands.OtherControlsAreIgnored | crates/teamucks-vte/src/terminal.rs:507-567 | all other controls do nothing |
| Commands.StepsAdd | crates/teamucks-vte/src/terminal.rs:258-288 | of any number of steps in one direction only the sum counts, whatever borders are hit |
| Commands.StepsUndoneIff | crates/teamucks-vte/src/terminal.rs:258-288 | steps are undone by opposite steps of the same sum exactly when they hit no border or began at the opposite one, with no wrap pending |
| Commands.EraseHalves | crates/teamucks-vte/src/grid.rs:871-914 | erasing up to the cursor and from it on, in either order, is erasing everything |
| Typing.TypedLines | crates/teamucks-vte/src/grid.rs:470-596 | a new terminal fed lines of printable characters of width 1 or 2, separated by CR LF, holds, history and screen together, exactly the rows into which reflow wraps the lines, and then blank rows; the cursor is behind the last character, and everything else is as in a new terminal |
| Typing.TypedText | crates/teamucks-vte/src/grid.rs:470-596 | in particular for one line |
| Typing.ResizedIsRetypedIff | crates/teamucks-vte/src/grid.rs:321-381 | typing a text and then changing the width gives the screen and history of typing it at the new width, exactly when its trailing spaces need no row of their own there |
| Typing.ResizedIsRetyped | crates/teamucks-vte/src/grid.rs:321-381 | in particular for every text that does not end in a space |
| Witnesses.TrailingSpaceCanBeLost | crates/teamucks-vte/src/grid.rs:321-381 | a letter and a space show differently when resized than when typed at the new width |
| Retyping.ResizedTerminalIsRetypedIff | crates/teamucks-vte/src/grid.rs:321-381 | a terminal that is resized behind a text is, in every part and so for all further input, the terminal that was given the text at the new size, exactly when the trailing spaces need no row of their own and the text fills its last row at neither width |
| Witnesses.CursorIsOnTheText | crates/teamucks-vte/src/reflow.rs:188-272 | two letters on two columns, with a column added: the cursor is on the second letter, with no wrap pending |
| RenderObject.TerminalRenderer.EmitSgr | crates/teamucks-core/src/render/mod.rs:331-370 | emits the codes from the cached style to the cell style and updates the cache |
| RenderObject.TerminalRenderer.EmitSgrFull | crates/teamucks-core/src/render/mod.rs:374-379 | all attributes and colours after a reset |
| RenderObject.TerminalRenderer.EmitAttrsAdded | crates/teamucks-core/src/render/mod.rs:382-406 | one code for each attribute that is new |
| RenderObject.TerminalRenderer.RenderFullFrame | crates/teamucks-core/src/render/mod.rs:117-153 | the buffer holds the bytes of the frame tokens |
| RenderObject.TerminalRenderer.RenderDiff | crates/teamucks-core/src/render/mod.rs:162-215 | the buffer holds the bytes of the diff tokens |
| StyleCache.EmitSgrStyle | crates/teamucks-core/src/render/mod.rs:331-430 | the codes take the host from the cached style to the wanted one, exactly when the wanted attributes all have codes |
| StyleCache.CacheRefinesNaiveEmission | crates/teamucks-core/src/render/mod.rs:331-430 | over any list of cells the host has, at each, the style it would have with a reset before every cell, and that is the cell's own style throughout exactly when all attributes have codes |
| StyleCache.SgrTokensHandled | crates/teamucks-core/src/render/mod.rs:331-430 | the emulator interprets the codes as the reference interpreter does and changes nothing but the style |
| RenderParsing.TokensParse | crates/teamucks-core/src/render/mod.rs:316-430 | the bytes of any readable tokens are parsed into exactly the events of the tokens |
| ClosedLoopFrames.FullFrameLoop | crates/teamucks-core/src/render/mod.rs:117-153 | feeding a rendered frame, wide characters included, to any terminal of its size that takes output literally leaves it showing exactly the frame |
| ClosedLoopFrames.FullFrameOnNewTerminal | crates/teamucks-core/src/render/mod.rs:117-153 | the same for a new terminal |
| WideFrames.FullFrameShowsDrawn | crates/teamucks-core/src/render/mod.rs:117-153 | whatever the second halves of wide characters hold, the terminal shows the frame with each taking after its first half |
| WideFrames.FullFrameLoopIff | crates/teamucks-core/src/render/mod.rs:117-153 | which is the frame itself exactly when every second half is a space in the style of its first half |
| ClosedLoopFrames.RenderedDiffLoop | crates/teamucks-core/src/render/mod.rs:162-215 | feeding any rendered diff to a terminal that shows a frame leaves it showing the frame with the diff applied |
| ClosedLoopFrames.DiffLoop | crates/teamucks-core/src/render/mod.rs:162-215 | feeding the rendered diff between two frames to a terminal that shows the first leaves it showing the second |
| ClosedLoopFrames.SessionStaysInSync | crates/teamucks-core/src/render/mod.rs:98-215 | after a first frame and any number of diffs the terminal shows the last frame and is ready for the next |
| ClosedLoopFrames.RegionScrollHandled | crates/teamucks-core/src/render/mod.rs:192-207 | a rendered scroll of a region scrolls exactly that region of the host, and leaves the region set |
| AtomicFrames.FullFrameIsAtomic | crates/teamucks-core/src/render/mod.rs:117-153 | however the bytes of a full frame are cut, the terminal has seen none of it, holds its output back, or has seen all of it and holds nothing back |
| AtomicFrames.DiffIsAtomic | crates/teamucks-core/src/render/mod.rs:162-215 | the same for any diff |
| WideDiffs.WideDiffLoopIff | crates/teamucks-core/src/render/mod.rs:162-191 | for frames with wide characters, the diff leaves the terminal showing the new frame exactly when no row sent cell by cell has a second half among its changes |
| WideDiffs.SessionKeepsInStepIff | crates/teamucks-core/src/render/mod.rs:162-215 | over any number of such frames the terminal shows each in turn exactly when every diff meets that condition |
| Witnesses.WideCharacterIsLost | crates/teamucks-core/src/render/mod.rs:172-178 | a wide character over two of four letters is wiped out by the space sent for its second half |
| Diff.ComputeDiffEntries | crates/teamucks-core/src/render/diff.rs:29-71 | the diff loop |
| Diff.RowDiffEntries | crates/teamucks-core/src/render/diff.rs:43-71 | one row: nothing, the changed cells, or the whole row when more than half changed |
| Diff.FullAsDiffEntries | crates/teamucks-core/src/render/diff.rs:82-97 | a whole frame as row changes |
| Diff.DiffApplies | crates/teamucks-core/src/render/diff.rs:29-71 | applying the diff to the old frame gives the new one |
| Diff.DiffReportsChanges | crates/teamucks-core/src/render/diff.rs:29-71 | an entry is in the diff exactly when it is a changed cell of a row with at most half its cells changed, or a row with more, whole |
| Diff.FullDiffApplies | crates/teamucks-core/src/render/diff.rs:82-97 | applying the full diff to any frame of the size gives the new one |
| Diff.EmptyDiffMeansSame | crates/teamucks-core/src/render/diff.rs:29-71 | the diff is empty exactly when nothing changed |
| Layouts.AppendGeometries | crates/teamucks-core/src/layout/resolve.rs:82-137 | the recursive resolver appends the rectangles of the tree |
| LayoutTiling.SharesGrow | crates/teamucks-core/src/layout/resolve.rs:106-113 | both clamped shares are at least the minimum, add up, and grow with the space, for any ratio |
| LayoutTiling.FitsGrows | crates/teamucks-core/src/layout/resolve.rs:82-137 | a tree that fits an area fits every larger one |
| LayoutTiling.ResolvesEveryLeaf | crates/teamucks-core/src/layout/resolve.rs:82-137 | one rectangle per leaf, in order |
| LayoutTiling.FittingTiles | crates/teamucks-core/src/layout/resolve.rs:82-137 | the rectangles lie inside, are at least 5x2, and any two have a whole row or column between them |
| LayoutTiling.PanesAndDividersPartition | crates/teamucks-core/src/layout/resolve.rs:82-137 | every cell lies in a pane or on a dividing line, never both |
| LayoutTiling.EveryCellHasOnePlace | crates/teamucks-core/src/layout/resolve.rs:82-137 | a cell is on a dividing line exactly when there is no pane that alone contains it |
| Layouts.ReplaceLeafWithSplit | crates/teamucks-core/src/layout/tree.rs:563-588 | replaces the first matching leaf, or reports that there is none |
| Layouts.CloseLeaf | crates/teamucks-core/src/layout/tree.rs:595-644 | what each result of the removal means for the tree |
| Layouts.SwapPaneIds | crates/teamucks-core/src/layout/tree.rs:731-745 | exchanges two ids throughout |
| LayoutObject.LayoutTree.ValidateSplit | crates/teamucks-core/src/layout/tree.rs:233-290 | the error of a split, measured on the resolved rectangle |
| LayoutObject.LayoutTree.SplitTarget | crates/teamucks-core/src/layout/tree.rs:213-230 | splits or reports the error and changes nothing; soundness is kept |
| LayoutObject.LayoutTree.Close | crates/teamucks-core/src/layout/tree.rs:307-335 | closes, promotes the sibling, clears the zoom, repairs the active pane; soundness is kept |
| LayoutObject.LayoutTree.FixupActivePane | crates/teamucks-core/src/layout/tree.rs:338-346 | the first leaf becomes active when the active pane closed |
| LayoutObject.LayoutTree.Swap | crates/teamucks-core/src/layout/tree.rs:394-409 | swaps two existing panes; soundness is kept |
| LayoutObject.LayoutTree.ResolveTree | crates/teamucks-core/src/layout/resolve.rs:61-76 | a zoomed pane takes the whole window |
| LayoutTiling.AcceptedRatioIsExactIff | crates/teamucks-core/src/layout/tree.rs:233-290 | an accepted split is realised with the share asked for exactly when the ratio is at most 1 |
| LayoutTiling.SplitAcceptedIff | crates/teamucks-core/src/layout/tree.rs:233-290 | for ratios up to 1 a split is accepted exactly when both parts beside the dividing line are of at least the minimum size |
| LayoutTiling.SplitRealizesRatio | crates/teamucks-core/src/layout/tree.rs:213-230 | an accepted split of a sound layout, at a ratio up to 1, leaves the target floor((n - 1) * ratio) of its n columns, or rows, at its old corner, gives the new pane the rest behind one column or row, and moves no other pane |
| Witnesses.RatioAboveOneIsClamped | crates/teamucks-core/src/layout/tree.rs:233-290 | a ratio of one and a half is accepted and clamped |
| LayoutTiling.SplitFitsIffPaneHasRoom | crates/teamucks-core/src/layout/tree.rs:213-290 | a split leaves a fitting tree exactly when the pane it splits has room for two |
| LayoutTiling.SplitInsertsLeaf | crates/teamucks-core/src/layout/tree.rs:563-588 | the new id comes right after the target |
| LayoutTiling.CloseKeepsFit | crates/teamucks-core/src/layout/tree.rs:307-346 | after a close everything still fits |
| LayoutTiling.CloseRemovesLeaf | crates/teamucks-core/src/layout/tree.rs:595-644 | closing removes one leaf and keeps the order of the others |
| LayoutTiling.CloseUndoesSplit | crates/teamucks-core/src/layout/tree.rs:213-346 | closing the pane a split made gives back the tree |
| LayoutTiling.CloseKeepsFocus | crates/teamucks-core/src/layout/tree.rs:307-346 | active and zoomed pane stay unless they are closed; then the first remaining pane is active, or none is zoomed; which error comes when, and that a refused close keeps the tree and the active pane |
| LayoutTiling.SwapExchangesRectangles | crates/teamucks-core/src/layout/tree.rs:731-745 | a swap exchanges two rectangles and moves nothing else |
| LayoutTiling.SwapMovesPanes | crates/teamucks-core/src/layout/tree.rs:394-409 | two panes are swapped exactly when both exist: each is found in the other's rectangle, every other in its own, and active pane, zoom and window stay |
| LayoutTiling.SwapTwice | crates/teamucks-core/src/layout/tree.rs:731-745 | swapping twice changes nothing |
| LayoutTiling.EveryRunTiles | crates/teamucks-core/src/layout/tree.rs:213-346 | from one pane in a window of at least 5x2, after any sequence of splits, closes, swaps, zooms and window growth, the tree resolves to rectangles that tile the window, one per leaf |
| LayoutTiling.ZoomedSplitFitsIff | crates/teamucks-core/src/layout/tree.rs:233-246 | while zoomed, a split is checked against the whole window; the tree fits afterwards exactly when the pane itself has room |
| LayoutTiling.ZoomedSplitCanOverflow | crates/teamucks-core/src/layout/tree.rs:233-246 | a concrete zoomed split that is accepted and does not fit |
| LayoutText.NodeRoundTrip | crates/teamucks-core/src/layout/tree.rs:790-863 | parsing the text of any tree, whatever follows it, consumes exactly that text and returns the tree with ratios in hundredths |
| LayoutText.DeserializeSerialized | crates/teamucks-core/src/layout/tree.rs:543-555 | reading back a saved tree gives the same shape, directions and ids with the first leaf active |
| LayoutText.RoundTripIsExactIff | crates/teamucks-core/src/layout/tree.rs:524-555 | the tree comes back unchanged exactly when all ratios are whole hundredths |
| Witnesses.ThirdIsRounded | crates/teamucks-core/src/layout/tree.rs:790-810 | a split at a third does not come back |
| LayoutText.OnlyWhitespaceMaySurround | crates/teamucks-core/src/layout/tree.rs:543-555 | whitespace around a saved layout makes no difference, and anything else behind it is an error |
| Borders.ComputeBorders | crates/teamucks-core/src/render/borders.rs:97-160 | lists exactly the gaps of the window, once each and in row-major order, each with its character and its active flag; nothing for at most one pane |
| Borders.PaintPane | crates/teamucks-core/src/render/borders.rs:113-123 | paints the part of a pane that is in the window |
| Borders.FromNeighbours | crates/teamucks-core/src/render/borders.rs:186-201 | the mask has a bit for each side on which the gap continues |
| Borders.GapsOfALayout | crates/teamucks-core/src/render/borders.rs:97-160 | a gap is a cell of a dividing line or of a pane with id 0 |
| Borders.BordersCompleteTheTiling | crates/teamucks-core/src/render/borders.rs:97-160 | for a sound layout with nonzero ids the listed cells are exactly the cells of the dividing lines, which are exactly the cells in no pane |
| Borders.FlagMeansNextToActivePane | crates/teamucks-core/src/render/borders.rs:147-155 | a border cell is flagged exactly when a cardinal neighbour lies in the active pane |
| WireObject.EncodeServerPayload | crates/teamucks-core/src/protocol/encode.rs:95-145 | appends the bytes of a server message |
| WireObject.EncodeClientPayload | crates/teamucks-core/src/protocol/encode.rs:151-186 | appends the bytes of a client message |
| WireObject.EncodeCell | crates/teamucks-core/src/protocol/encode.rs:192-198 | appends the bytes of a cell |
| WireObject.EncodeDiffEntry | crates/teamucks-core/src/protocol/encode.rs:200-223 | appends the bytes of a diff entry |
| WireObject.PushString | crates/teamucks-core/src/protocol/encode.rs:267-274 | a string is cut at 65535 bytes |
| WireObject.WriteFrame | crates/teamucks-core/src/protocol/encode.rs:78-89 | length prefix and payload, or the size error; the length is taken modulo 2^32 first |
| WireObject.EncodeServerMessage | crates/teamucks-core/src/protocol/encode.rs:40-44 | appends the framed message or nothing |
| WireObject.EncodeClientMessage | crates/teamucks-core/src/protocol/encode.rs:68-72 | appends the framed message or nothing |
| WireObject.DecodeServerMessage | crates/teamucks-core/src/protocol/decode.rs:43-105 | message and number of bytes consumed, or the first error |
| WireObject.DecodeClientMessage | crates/teamucks-core/src/protocol/decode.rs:127-166 | message and number of bytes consumed, or the first error |
| WireObject.Cursor.ReadString | crates/teamucks-core/src/protocol/decode.rs:237-241 | length, bytes and UTF-8 validation |
| WireObject.Cursor.ReadCell | crates/teamucks-core/src/protocol/decode.rs:271-278 | the five fields of a cell |
| WireObject.Cursor.ReadDiffEntry | crates/teamucks-core/src/protocol/decode.rs:280-307 | the three kinds of entries |
| WireProperties.ServerReads | crates/teamucks-core/src/protocol/decode.rs:43-105 | every message within the limits is read back with all its bytes, whatever follows |
| WireProperties.ServerWritten | crates/teamucks-core/src/protocol/decode.rs:43-105 | whatever the decoder accepts is within the limits and spelled by its encoding, save that any byte but 0 reads as visible |
| WireProperties.ServerRoundTripIff | crates/teamucks-core/src/protocol/decode.rs:43-105 | a server message survives exactly when its strings and lists fit 16-bit counts |
| WireProperties.LongStatusIsCut | crates/teamucks-core/src/protocol/encode.rs:267-274 | a status line of 65536 letters does not survive |
| WireProperties.ClientWritten | crates/teamucks-core/src/protocol/decode.rs:127-166 | the client decoder accepts nothing but encodings |
| WireProperties.ClientRoundTripIff | crates/teamucks-core/src/protocol/decode.rs:127-166 | a client message survives exactly when its strings and keys fit 16-bit counts |
| WireVerdicts.ServerVerdictIsFinal | crates/teamucks-core/src/protocol/decode.rs:43-105 | a verdict is final unless it is "truncated": further bytes change neither an accepted message nor any other error |
| WireVerdicts.ServerCutIsTruncated | crates/teamucks-core/src/protocol/decode.rs:43-105 | every message within the limits that is cut short, anywhere, is refused as truncated |
| WireVerdicts.ClientVerdictIsFinal | crates/teamucks-core/src/protocol/decode.rs:127-166 | the same finality for the client decoder |
| WireVerdicts.ClientCutIsTruncated | crates/teamucks-core/src/protocol/decode.rs:127-166 | and for client messages cut short |
| WireBounds.ServerFinalIff | crates/teamucks-core/src/protocol/decode.rs:43-105 | a verdict on bytes from the server is final, whatever follows, exactly when it is not "truncated": behind truncated bytes, enough others give another verdict |
| WireBounds.ClientFinalIff | crates/teamucks-core/src/protocol/decode.rs:127-166 | the same for the client decoder |
| WireVerdicts.DirectionsAreApart | crates/teamucks-core/src/protocol/decode.rs:43-166 | what one decoder accepts the other refuses as an unknown type, whatever follows |
| Codec.FrameRoundTripIff | crates/teamucks-core/src/protocol/codec.rs:174-200 | a framed payload is read back whole exactly when it is within the limit |
| Codec.ProtocolCodec.FillAtLeast | crates/teamucks-core/src/protocol/codec.rs:151-171 | buffers enough bytes or everything there is, and loses none |
| Codec.ProtocolCodec.ReadFrame | crates/teamucks-core/src/protocol/codec.rs:174-200 | reads the frame at the front of the stream whatever pieces it arrives in; an error leaves the stream as it was |
| Codec.ProtocolCodec.ReadServerMessage | crates/teamucks-core/src/protocol/codec.rs:82-89 | reads the message at the front of the stream; an undecodable frame is consumed |
| Codec.ProtocolCodec.ReadClientMessage | crates/teamucks-core/src/protocol/codec.rs:98-105 | the same for client messages |
| Codec.ServerStreamRoundTrip | crates/teamucks-core/src/protocol/codec.rs:151-200 | reading a stream of messages gives exactly those messages in order and leaves exactly what follows |
| Codec.ClientStreamRoundTrip | crates/teamucks-core/src/protocol/codec.rs:151-200 | the same for client messages |
| Codec.ReceiveServerMessages | crates/teamucks-core/src/protocol/codec.rs:82-89 | reading as often as messages were sent gives those messages, in whatever pieces they arrive, and leaves what follows |
| Codec.ReceiveClientMessages | crates/teamucks-core/src/protocol/codec.rs:98-105 | the same for client messages |
| EndToEnd.FullFrameSendableIff | crates/teamucks-core/src/protocol/encode.rs:102-111 | a screen of cells with one scalar each can be sent whole exactly when it has at most 65535 of them |
| Witnesses.LargeFrameCannotBeSent | crates/teamucks-core/src/protocol/encode.rs:102-111 | 256 rows of 256 letters cannot be sent |
| EndToEnd.DiffSendable | crates/teamucks-core/src/protocol/encode.rs:112-119 | the diff between two such screens can always be sent |
| EndToEnd.ScreencastArrives | crates/teamucks-core/src/protocol/codec.rs:56-200 | a first frame and any number of diffs, sent over a stream and rendered by the client: exactly the messages sent are read and the terminal shows the last frame |
| EndToEnd.WideScreencastArrives | crates/teamucks-core/src/protocol/codec.rs:56-200 | the same for frames with wide characters: the messages always arrive, and the terminal shows each frame in turn exactly when no diff sends a second half cell by cell |

## Left out

- GridProperties.CursorStaysOnItsCell: for a cursor right behind its line's text see Retyping.ResizedTerminalIsRetypedIff; one further behind, or whose row went into the history, is placed as the code does but no promise is stated about it.
- GridProperties.ResizePathIndependence: for narrow cells without eviction; wide characters at odd widths are padded differently, and the case of returning to the first width is Excursions.ExcursionIsIdentityIff.
- ReflowProperties.RewrapKeepsContent: for widths of at least two; at width 1 wide characters are dropped and replaced by blanks; ReflowProperties.RewrapShape covers every width.
- TerminalProperties.ReachableIsPaired: runs exclude restoring a cursor that a resize has left off the screen, after which the original indexes outside it, and resizes that cut a pair on the alternate screen.
- ClosedLoopFrames.DiffLoop: frames of cells with one printable scalar of width 1; for width 2 see WideDiffs.WideDiffLoopIff. In all closed loops cells have one scalar and attributes with codes; for zero-width characters see Writing.CombiningJoinsIff.
- WideDiffs.WideDiffLoopIff: both frames have second halves in the style of their first halves, as terminals write them; after a reflow they do not.
- EndToEnd.WideScreencastArrives: frames of cells with one scalar each.
- Typing.TypedLines: characters of width 1 or 2 that fit on a line, in the default style and on a new terminal; texts longer than history and screen together are left out.
- Typing.ResizedIsRetypedIff: characters of width 1.
- Retyping.ResizedTerminalIsRetypedIff: one line of characters of width 1.
- Writing.TextStaysInRow: characters of width 1; a wide one for which the last column is too narrow is not written when auto-wrap is off.
- LayoutTiling.SplitRealizesRatio: ratios up to 1; for greater ones see LayoutTiling.AcceptedRatioIsExactIff.
- Excursions.ExcursionIsIdentityIff: narrow cells, and a history large enough for the rows of the other size.
- In-place edits of boxed layout nodes: trees are values, and the edits are methods that return the changed tree; a tree owns its nodes, so no aliasing is lost.
- LayoutTiling.EveryRunTiles: `resize` and `rotate` are not among the operations, since neither re-validates the tree; splits are made while unzoomed.
- LayoutObject.LayoutTree.SplitTarget: for a ratio above 1 the subtraction in the original's validation wraps around, as here, only without overflow checks; with them it panics.
- LayoutText.NodeRoundTrip: ratios written with an exponent, `inf` or `nan` are refused by the model and accepted by the original; negative zero is not distinguished.
- Layouts.AppendGeometries: coordinates are unbounded, so the 16-bit overflow of a tree in a window far too small for it is not captured; ratios are reals, so single-precision rounding is not either.
- Borders.PaintPane: the 16-bit overflow of a rectangle's far edge is not captured.
- Capacity and reservation of the read buffer, and read errors other than the end of the stream.
- Character widths: a parameter from characters to 0, 1 or 2; grapheme clustering is only the joining of zero-width characters to the cell before.
- Performer callbacks: the events of each byte, in order, instead of calls.
- Window titles: kept as the bytes of the OSC field; the lossy UTF-8 decoding of titles is not modelled.
- Device control strings: parsed and emitted, and ignored by the terminal as in the original.
- `RegionScroll` diffs: ClosedLoopFrames.RegionScrollHandled says what they do to a host; they are not in the closed loop, since no computed diff contains them; negating a count of -32768 overflows in the original and not here.
- `render_cursor`, `render_borders` and the cursor part of frame diffs: the closed loop is about cells.
- `Pane` and the actors: which frame is the baseline of a client, lossy sends, several clients.
- Direction-based pane navigation, `pane_count`, and accessors of grid, scrollback and session.
- PTYs, child processes, signals, sockets, the async runtime, raw mode, the command line, configuration, key bindings, mouse reports and the status bar.
