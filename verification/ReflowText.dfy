/** For narrow cells the text of a screen, its logical lines without trailing blanks,
    survives reflow, and the reflowed rows depend on nothing else. */
module ReflowText {
  import opened Common
  import opened Cells
  import opened Reflow
  import opened ReflowProperties

  predicate NarrowRows(rows: seq<Row>) {
    NoEmptyRow(rows) && forall i :: 0 <= i < |rows| ==> AllNarrow(rows[i].cells)
  }

  predicate NarrowLines(lines: seq<seq<Cell>>) {
    forall i :: 0 <= i < |lines| ==> AllNarrow(lines[i])
  }

  predicate Trimmed(lines: seq<seq<Cell>>) {
    forall i :: 0 <= i < |lines| ==> Trim(lines[i]) == lines[i]
  }

  /** Lines without the trailing empty ones. */
  function StripEmpty(lines: seq<seq<Cell>>): (r: seq<seq<Cell>>)
    ensures r <= lines
    ensures r != [] ==> r[|r| - 1] != []
  {
    if lines != [] && lines[|lines| - 1] == [] then StripEmpty(lines[..|lines| - 1]) else lines
  }

  /** The text rows show, oldest row first. */
  function Text(rows: seq<Row>): seq<seq<Cell>> {
    StripEmpty(TrimAll(Lines(rows)))
  }

  // -------------------------------------------------------------------------
  // One narrow line
  // -------------------------------------------------------------------------

  lemma NarrowStep(cells: seq<Cell>, n: nat, line: seq<Cell>)
    requires |line| < n && cells != [] && Narrow(cells[0])
    ensures Segments(cells, n, line)
         == if |line| + 1 == n then [line + [cells[0]]] + Segments(cells[1..], n, [])
            else Segments(cells[1..], n, line + [cells[0]])
  {
    assert AfterGlyph(cells) == cells[1..];
  }

  lemma NoMoreSegments(n: nat, line: seq<Cell>)
    requires |line| < n
    ensures Segments([], n, line) == if line == [] then [] else [line]
  {
  }

  lemma {:induction false} NarrowSegments(cells: seq<Cell>, n: nat, line: seq<Cell>)
    requires n > 0 && |line| < n && AllNarrow(cells)
    ensures |line| + |cells| <= n ==>
              Segments(cells, n, line) == if line + cells == [] then [] else [line + cells]
    ensures |line| + |cells| > n ==>
              Segments(cells, n, line)
              == [line + cells[..n - |line|]] + Segments(cells[n - |line|..], n, [])
    decreases |cells|
  {
    hide Segments;
    if cells == [] {
      NoMoreSegments(n, line);
      assert line + cells == line;
    } else {
      var line' := line + [cells[0]];
      NarrowStep(cells, n, line);
      assert line' + cells[1..] == line + cells;
      if |line'| == n {
        LastOfLine(cells, n, line);
      } else {
        NarrowSegments(cells[1..], n, line');
        if |line| + |cells| > n {
          Resliced(cells, n, line);
        }
      }
    }
  }

  lemma LastOfLine(cells: seq<Cell>, n: nat, line: seq<Cell>)
    requires |line| + 1 == n && cells != []
    ensures line + [cells[0]] == line + cells[..1]
    ensures |cells| == 1 ==> [line + [cells[0]]] + Segments(cells[1..], n, []) == [line + cells]
  {
    hide Segments;
    if |cells| == 1 {
      assert cells == [cells[0]] && cells[1..] == [];
      NoMoreSegments(n, []);
      assert [line + [cells[0]]] + [] == [line + cells];
    }
  }

  lemma Resliced(cells: seq<Cell>, n: nat, line: seq<Cell>)
    requires |line| + 1 < n && |line| + |cells| > n
    ensures var line' := line + [cells[0]];
            line' + cells[1..][..n - |line'|] == line + cells[..n - |line|]
            && cells[1..][n - |line'|..] == cells[n - |line|..]
  {
  }

  lemma RewrapLast(cells: seq<Cell>, n: nat)
    requires n > 0 && AllNarrow(cells) && |cells| <= n
    ensures Rewrap(cells, n) == [Row(Pad(cells, n), false)]
  {
    NarrowSegments(cells, n, []);
    assert [] + cells == cells;
    assert LineSegments(cells, n) == [cells];
  }

  lemma SegmentsFirst(cells: seq<Cell>, n: nat)
    requires n > 0 && AllNarrow(cells) && |cells| > n
    ensures LineSegments(cells, n) == [cells[..n]] + LineSegments(cells[n..], n)
  {
    NarrowSegments(cells, n, []);
    NarrowSegments(cells[n..], n, []);
    assert [] + cells[..n] == cells[..n];
  }

  lemma RewrapFirst(cells: seq<Cell>, n: nat)
    requires n > 0 && AllNarrow(cells) && |cells| > n
    ensures Rewrap(cells, n) == [Row(cells[..n], true)] + Rewrap(cells[n..], n)
  {
    hide AllNarrow, LineSegments;
    var rest := LineSegments(cells[n..], n);
    SegmentsFirst(cells, n);
    assert Pad(cells[..n], n) == cells[..n];
    var rows, tail := Rewrap(cells, n), Rewrap(cells[n..], n);
    forall i | 0 <= i < |rows| ensures rows[i] == ([Row(cells[..n], true)] + tail)[i] {
      if i > 0 { assert rows[i].cells == Pad(rest[i - 1], n); }
    }
  }

  lemma NarrowRow(row: Row)
    requires row.cells != [] && AllNarrow(row.cells)
    ensures NarrowRows([row])
  {
  }

  lemma NarrowConcat(a: seq<Row>, b: seq<Row>)
    requires NarrowRows(a) && NarrowRows(b)
    ensures NarrowRows(a + b)
  {
    hide AllNarrow;
  }

  /** The rows of a narrow line hold its cells and then blanks, as one logical line. */
  lemma {:induction false} RewrapIsOneLine(cells: seq<Cell>, n: nat) returns (k: nat)
    requires n > 0 && AllNarrow(cells)
    ensures Lines(Rewrap(cells, n)) == [cells + Repeat(BLANK, k)]
    ensures !Rewrap(cells, n)[|Rewrap(cells, n)| - 1].softWrapped
    ensures NarrowRows(Rewrap(cells, n))
    decreases |cells|
  {
    hide Rewrap, NarrowRows, Lines;
    if |cells| <= n {
      RewrapLast(cells, n);
      k := n - |cells|;
      NarrowRow(Row(Pad(cells, n), false));
      LinesOfOne(Row(Pad(cells, n), false));
    } else {
      RewrapFirst(cells, n);
      var first, tail := Row(cells[..n], true), Rewrap(cells[n..], n);
      k := RewrapIsOneLine(cells[n..], n);
      LinesStep(first, tail);
      assert cells[..n] + (cells[n..] + Repeat(BLANK, k)) == cells + Repeat(BLANK, k);
      NarrowRow(first);
      NarrowConcat([first], tail);
    }
  }

  lemma LinesOfOne(row: Row)
    ensures Lines([row]) == [row.cells]
  {
    LinesStep(row, []);
    assert [row] + [] == [row];
  }

  lemma {:induction false} TrimIgnoresBlanks(cells: seq<Cell>, k: nat)
    ensures Trim(cells + Repeat(BLANK, k)) == Trim(cells)
  {
    var s := cells + Repeat(BLANK, k);
    if k == 0 {
      assert s == cells;
    } else {
      assert s[|s| - 1] == BLANK;
      assert s[..|s| - 1] == cells + Repeat(BLANK, k - 1);
      TrimIgnoresBlanks(cells, k - 1);
    }
  }

  // -------------------------------------------------------------------------
  // Many narrow lines
  // -------------------------------------------------------------------------

  lemma {:induction false} RewrapAllConcat(a: seq<seq<Cell>>, b: seq<seq<Cell>>, n: nat)
    requires n > 0
    ensures RewrapAll(a + b, n) == RewrapAll(a, n) + RewrapAll(b, n)
  {
    hide Rewrap;
    if a == [] {
      assert a + b == b;
    } else {
      assert (a + b)[1..] == a[1..] + b;
      RewrapAllConcat(a[1..], b, n);
    }
  }

  lemma RewrapAllOne(line: seq<Cell>, n: nat)
    requires n > 0
    ensures RewrapAll([line], n) == Rewrap(line, n)
  {
    hide Rewrap;
    assert [line][1..] == [];
    assert Rewrap(line, n) + [] == Rewrap(line, n);
  }

  lemma NoRows()
    ensures Lines([]) == [] && NarrowRows([])
  {
  }

  /** Re-wrapped lines read back as themselves. */
  lemma {:induction false} LinesOfRewrapAll(lines: seq<seq<Cell>>, n: nat)
    requires n > 0 && NarrowLines(lines) && Trimmed(lines)
    ensures TrimAll(Lines(RewrapAll(lines, n))) == lines
    ensures lines == [] || !RewrapAll(lines, n)[|RewrapAll(lines, n)| - 1].softWrapped
    ensures NarrowRows(RewrapAll(lines, n))
  {
    hide Rewrap, Lines, AllNarrow, NarrowRows, Trim;
    if lines == [] {
      NoRows();
    } else {
      var first, rest := lines[0], lines[1..];
      var k := RewrapIsOneLine(first, n);
      LinesOfRewrapAll(rest, n);
      NarrowConcat(Rewrap(first, n), RewrapAll(rest, n));
      LinesConcat(Rewrap(first, n), RewrapAll(rest, n));
      TrimIgnoresBlanks(first, k);
      assert TrimAll([first + Repeat(BLANK, k)] + Lines(RewrapAll(rest, n)))
             == [Trim(first + Repeat(BLANK, k))] + TrimAll(Lines(RewrapAll(rest, n)));
    }
  }

  lemma BlankLineFirst(rows: seq<Row>, n: nat)
    ensures TrimAll(Lines([BlankRow(n)] + rows)) == [[]] + TrimAll(Lines(rows))
  {
    LinesStep(BlankRow(n), rows);
    TrimIgnoresBlanks([], n);
    assert [] + Repeat(BLANK, n) == Repeat(BLANK, n);
    hide Trim, Lines;
  }

  lemma {:induction false} LinesOfBlankRows(k: nat, n: nat)
    requires n > 0
    ensures TrimAll(Lines(BlankRows(k, n))) == Repeat([], k)
  {
    if k > 0 {
      hide TrimAll, Lines;
      LinesOfBlankRows(k - 1, n);
      BlankLineFirst(BlankRows(k - 1, n), n);
      assert BlankRows(k, n) == [BlankRow(n)] + BlankRows(k - 1, n);
    }
  }

  lemma {:induction false} StripIgnoresEmpty(lines: seq<seq<Cell>>, k: nat)
    ensures StripEmpty(lines + Repeat([], k)) == StripEmpty(lines)
  {
    var s := lines + Repeat([], k);
    if k == 0 {
      assert s == lines;
    } else {
      assert s[|s| - 1] == [];
      assert s[..|s| - 1] == lines + Repeat([], k - 1);
      StripIgnoresEmpty(lines, k - 1);
    }
  }

  lemma {:induction false} StripKeepsTrimmed(lines: seq<seq<Cell>>)
    requires NarrowLines(lines) && Trimmed(lines)
    ensures NarrowLines(StripEmpty(lines)) && Trimmed(StripEmpty(lines))
    ensures StripEmpty(StripEmpty(lines)) == StripEmpty(lines)
  {
    if lines != [] && lines[|lines| - 1] == [] {
      StripKeepsTrimmed(lines[..|lines| - 1]);
    }
  }

  /** The last row of a trimmed, non-empty line shows something. */
  lemma {:induction false} LastRowShows(cells: seq<Cell>, n: nat)
    requires n > 0 && AllNarrow(cells) && cells != [] && Trim(cells) == cells
    ensures !IsBlankRow(Rewrap(cells, n)[|Rewrap(cells, n)| - 1])
    decreases |cells|
  {
    hide Rewrap, Trim;
    if |cells| <= n {
      RewrapLast(cells, n);
      var row := Rewrap(cells, n)[0];
      assert row.cells[|cells| - 1] == cells[|cells| - 1];
      assert !IsBlank(row.cells[|cells| - 1]);
    } else {
      RewrapFirst(cells, n);
      var rest := cells[n..];
      TrimmedSuffix(cells, n);
      LastRowShows(rest, n);
    }
  }

  lemma TrimmedSuffix(cells: seq<Cell>, n: nat)
    requires n < |cells| && Trim(cells) == cells
    ensures Trim(cells[n..]) == cells[n..]
  {
    hide IsBlank;
    assert cells[n..][|cells[n..]| - 1] == cells[|cells| - 1];
  }

  lemma TrimRowsStops(rows: seq<Row>)
    requires rows != [] && !IsBlankRow(rows[|rows| - 1])
    ensures TrimRows(rows) == rows
  {
  }

  /** Dropping trailing blank rows is dropping trailing empty lines. */
  lemma {:induction false} TrimRowsStripsLines(lines: seq<seq<Cell>>, n: nat)
    requires n > 0 && NarrowLines(lines) && Trimmed(lines)
    ensures TrimRows(RewrapAll(lines, n)) == RewrapAll(StripEmpty(lines), n)
    decreases |lines|
  {
    hide Rewrap, AllNarrow, IsBlankRow;
    if lines != [] {
      var init, last := lines[..|lines| - 1], lines[|lines| - 1];
      assert lines == init + [last];
      RewrapAllConcat(init, [last], n);
      RewrapAllOne(last, n);
      var rows, tail := RewrapAll(lines, n), Rewrap(last, n);
      assert rows[|rows| - 1] == tail[|tail| - 1];
      if last == [] {
        RewrapOfNothing(n);
        assert rows[..|rows| - 1] == RewrapAll(init, n);
        TrimRowsStripsLines(init, n);
      } else {
        LastRowShows(last, n);
        TrimRowsStops(rows);
      }
    }
  }

  lemma RewrapOfNothing(n: nat)
    requires n > 0
    ensures Rewrap([], n) == [BlankRow(n)] && IsBlankRow(BlankRow(n))
  {
    RewrapLast([], n);
    assert Pad([], n) == Repeat(BLANK, n);
  }

  lemma {:induction false} NarrowRowsGiveNarrowLines(rows: seq<Row>)
    requires NarrowRows(rows)
    ensures NarrowLines(Lines(rows))
  {
    if rows != [] {
      NarrowRowsGiveNarrowLines(rows[1..]);
    }
  }

  lemma TrimIdempotent(cells: seq<Cell>)
    ensures Trim(Trim(cells)) == Trim(cells)
  {
  }

  lemma TrimAllTrims(lines: seq<seq<Cell>>)
    requires NarrowLines(lines)
    ensures NarrowLines(TrimAll(lines)) && Trimmed(TrimAll(lines))
  {
    forall i | 0 <= i < |lines| ensures Trim(Trim(lines[i])) == Trim(lines[i]) {
      TrimIdempotent(lines[i]);
    }
  }

  lemma TextIsTrimmed(rows: seq<Row>)
    requires NarrowRows(rows)
    ensures NarrowLines(Text(rows)) && Trimmed(Text(rows)) && StripEmpty(Text(rows)) == Text(rows)
  {
    NarrowRowsGiveNarrowLines(rows);
    TrimAllTrims(Lines(rows));
    StripKeepsTrimmed(TrimAll(Lines(rows)));
  }

  // -------------------------------------------------------------------------
  // Reflow
  // -------------------------------------------------------------------------

  /** The content rows of a reflow are the re-wrapped text. */
  lemma ReflowedContent(rows: seq<Row>, n: nat)
    requires n > 0 && NarrowRows(rows)
    ensures TrimRows(Reflowed(rows, n)) == RewrapAll(Text(rows), n)
  {
    CollectAllGivesLines(rows);
    NarrowRowsGiveNarrowLines(rows);
    TrimAllTrims(Lines(rows));
    if rows == [] {
      var empty: seq<seq<Cell>> := [[]];
      assert TrimAll(empty) == empty;
      TrimRowsStripsLines(empty, n);
      assert empty[..0] == [];
    } else {
      TrimRowsStripsLines(TrimAll(Lines(rows)), n);
    }
  }

  /** Reflowed rows, history and screen together, are the re-wrapped text and then blank
      rows, and they show the same text. */
  lemma ReflowKeepsText(rows: seq<Row>, n: nat, height: nat)
    requires n > 0 && NarrowRows(rows)
    ensures var s := SplitRows(Reflowed(rows, n), n, height);
            Text(s.history + s.visible) == Text(rows) && NarrowRows(s.history + s.visible)
  {
    hide Text, Reflowed, RewrapAll, NarrowRows, TrimRows, HasWidth, BlankRows;
    ReflowedContent(rows, n);
    TextIsTrimmed(rows);
    var k := SaturatingSub(height, |RewrapAll(Text(rows), n)|);
    SplitIsPadding(Reflowed(rows, n), n, height);
    TextOfPadded(Text(rows), n, k);
  }

  /** What a split keeps is the content and the blank rows that fill up the screen. */
  lemma SplitIsPadding(rows: seq<Row>, n: nat, height: nat)
    requires HasWidth(rows, n)
    ensures var s := SplitRows(rows, n, height);
            s.history + s.visible == TrimRows(rows) + BlankRows(SaturatingSub(height, |TrimRows(rows)|), n)
  {
    hide TrimRows, HasWidth;
    var content := TrimRows(rows);
    if |content| > height {
      assert content[..|content| - height] + content[|content| - height..] == content;
      assert BlankRows(0, n) == [] && content + [] == content;
    }
  }

  lemma TextOfPadded(text: seq<seq<Cell>>, n: nat, k: nat)
    requires n > 0 && NarrowLines(text) && Trimmed(text) && StripEmpty(text) == text
    ensures Text(RewrapAll(text, n) + BlankRows(k, n)) == text
    ensures NarrowRows(RewrapAll(text, n) + BlankRows(k, n))
  {
    hide Lines, RewrapAll, NarrowRows, Trim, StripEmpty;
    LinesOfRewrapAll(text, n);
    var content := RewrapAll(text, n);
    if text == [] { assert content == [] by { RewrapAllOfNone(n); } }
    LinesConcat(content, BlankRows(k, n));
    LinesOfBlankRows(k, n);
    var a, b := Lines(content), Lines(BlankRows(k, n));
    assert TrimAll(a + b) == TrimAll(a) + TrimAll(b);
    StripIgnoresEmpty(text, k);
    NarrowBlanks(k, n);
    NarrowConcat(content, BlankRows(k, n));
  }

  lemma NarrowBlanks(k: nat, n: nat)
    requires n > 0
    ensures NarrowRows(BlankRows(k, n))
  {
  }

  lemma RewrapAllOfNone(n: nat)
    requires n > 0
    ensures RewrapAll([], n) == []
  {
  }

  /** Two sets of rows with the same text reflow to the same rows. */
  lemma TextDeterminesReflow(a: seq<Row>, b: seq<Row>, n: nat, height: nat)
    requires n > 0 && NarrowRows(a) && NarrowRows(b) && Text(a) == Text(b)
    ensures SplitRows(Reflowed(a, n), n, height) == SplitRows(Reflowed(b, n), n, height)
  {
    hide Text, Reflowed, RewrapAll, NarrowRows, TrimRows, HasWidth, BlankRows;
    ReflowedContent(a, n);
    ReflowedContent(b, n);
  }

  /** Going through an intermediate size makes no difference. */
  lemma ReflowPathIndependence(rows: seq<Row>, n1: nat, height1: nat, n2: nat, height2: nat)
    requires n1 > 0 && n2 > 0 && NarrowRows(rows)
    ensures var s := SplitRows(Reflowed(rows, n1), n1, height1);
            SplitRows(Reflowed(s.history + s.visible, n2), n2, height2) == SplitRows(Reflowed(rows, n2), n2, height2)
  {
    ReflowKeepsText(rows, n1, height1);
    var s := SplitRows(Reflowed(rows, n1), n1, height1);
    TextDeterminesReflow(s.history + s.visible, rows, n2, height2);
  }
}
