/** What re-wrapping and reflow keep. */
module ReflowProperties {
  import opened Common
  import opened Cells
  import opened Reflow

  // -------------------------------------------------------------------------
  // Re-wrapping one line, for every cell sequence
  // -------------------------------------------------------------------------

  /** The canonical cells of a line: its leading cells in order, each wide one followed by
      a fresh continuation. */
  function Canon(cells: seq<Cell>): seq<Cell> {
    if cells == [] then []
    else if cells[0].continuation then Canon(cells[1..])
    else Glyph(cells[0]) + Canon(AfterGlyph(cells))
  }

  /** The leading cells in order. */
  function Leads(cells: seq<Cell>): seq<Cell> {
    if cells == [] then []
    else (if cells[0].continuation then [] else [cells[0]]) + Leads(cells[1..])
  }

  predicate StartsWide(segments: seq<seq<Cell>>) {
    segments != [] && segments[0] != [] && segments[0][0].wide
  }

  /** Every segment but the last is full, or one short of full because the next one starts
      with a wide cell. */
  predicate Filled(segments: seq<seq<Cell>>, n: nat) {
    forall i :: 0 <= i < |segments| - 1 ==>
      |segments[i]| == n || (|segments[i]| == n - 1 && StartsWide(segments[i + 1..]))
  }

  lemma FilledCons(line: seq<Cell>, rest: seq<seq<Cell>>, n: nat)
    requires Filled(rest, n)
    requires |line| == n || (|line| == n - 1 && StartsWide(rest)) || rest == []
    ensures Filled([line] + rest, n)
  {
    var s := [line] + rest;
    forall i | 0 <= i < |s| - 1
      ensures |s[i]| == n || (|s[i]| == n - 1 && StartsWide(s[i + 1..]))
    {
      if i == 0 { assert s[1..] == rest; } else { assert s[i + 1..] == rest[i..]; }
    }
  }

  lemma {:induction false} SegmentsFirst(cells: seq<Cell>, n: nat, line: seq<Cell>)
    requires |line| < n && n >= 2 && line != []
    ensures var s := Segments(cells, n, line); s != [] && s[0] != [] && s[0][0] == line[0]
    decreases |cells|, |line|
  {
    if cells == [] {
    } else if cells[0].continuation {
      SegmentsFirst(cells[1..], n, line);
    } else if cells[0].wide && |line| + 1 >= n {
    } else if |line + Glyph(cells[0])| < n {
      SegmentsFirst(AfterGlyph(cells), n, line + Glyph(cells[0]));
    }
  }

  lemma WideStarts(cells: seq<Cell>, n: nat)
    requires n >= 2 && cells != [] && !cells[0].continuation && cells[0].wide
    ensures StartsWide(Segments(cells, n, []))
  {
    var line := [] + Glyph(cells[0]);
    if |line| < n { SegmentsFirst(AfterGlyph(cells), n, line); }
  }

  /** At width two or more the segments hold exactly the line's canonical cells in order,
      and only a wide cell that would not fit leaves a gap before it. */
  lemma {:induction false} SegmentsHoldTheLine(cells: seq<Cell>, n: nat, line: seq<Cell>)
    requires |line| < n && n >= 2
    ensures Flatten(Segments(cells, n, line)) == line + Canon(cells)
    ensures Filled(Segments(cells, n, line), n)
    decreases |cells|, |line|
  {
    hide Filled, StartsWide, AfterGlyph, Glyph;
    if cells == [] {
      FlattenOne(line);
      assert line + [] == line;
      FilledShort(Segments(cells, n, line), n);
    } else if cells[0].continuation {
      SegmentsHoldTheLine(cells[1..], n, line);
    } else if cells[0].wide && |line| + 1 >= n {
      SegmentsHoldTheLine(cells, n, []);
      assert [] + Canon(cells) == Canon(cells);
      WideStarts(cells, n);
      FilledCons(line, Segments(cells, n, []), n);
      FlattenCons(line, Segments(cells, n, []));
    } else {
      var line' := line + Glyph(cells[0]);
      var rest := AfterGlyph(cells);
      SegmentsHoldTheLine(rest, n, if |line'| >= n then [] else line');
      assert line + (Glyph(cells[0]) + Canon(rest)) == line' + Canon(rest);
      if |line'| >= n {
        GlyphFits(line, cells[0], n);
        FilledCons(line', Segments(rest, n, []), n);
        FlattenCons(line', Segments(rest, n, []));
        assert [] + Canon(rest) == Canon(rest);
      }
    }
  }

  lemma GlyphFits(line: seq<Cell>, c: Cell, n: nat)
    requires |line| < n && !(c.wide && |line| + 1 >= n)
    ensures |line + Glyph(c)| <= n
  {
  }

  lemma FilledShort(segments: seq<seq<Cell>>, n: nat)
    requires |segments| <= 1
    ensures Filled(segments, n)
  {
  }

  lemma FlattenCons(line: seq<Cell>, rest: seq<seq<Cell>>)
    ensures Flatten([line] + rest) == line + Flatten(rest)
  {
    assert ([line] + rest)[1..] == rest;
  }

  /** Every second half is the plain one. */
  predicate PlainSeconds(cells: seq<Cell>) {
    forall i :: 0 <= i < |cells| && cells[i].continuation ==> cells[i] == CONTINUATION
  }

  /** A line is kept cell for cell exactly when its wide characters are paired and their second
      halves carry no style of their own. */
  lemma CanonicalIff(cells: seq<Cell>)
    ensures Canon(cells) == cells <==> PerfectlyPaired(cells) && PlainSeconds(cells)
  {
    hide Canon, PerfectlyPaired, PlainSeconds;
    CanonIsWellFormed(cells);
    if PerfectlyPaired(cells) && PlainSeconds(cells) {
      WellFormedIsCanonical(cells);
    }
  }

  lemma {:induction false} CanonIsWellFormed(cells: seq<Cell>)
    ensures PerfectlyPaired(Canon(cells)) && PlainSeconds(Canon(cells))
  {
    hide PerfectlyPaired, PlainSeconds, Glyph;
    if cells == [] {
      NothingIsWellFormed();
    } else if cells[0].continuation {
      CanonIsWellFormed(cells[1..]);
    } else {
      CanonIsWellFormed(AfterGlyph(cells));
      GlyphFirst(cells[0], Canon(AfterGlyph(cells)));
    }
  }

  lemma NothingIsWellFormed()
    ensures PerfectlyPaired([]) && PlainSeconds([])
  {
  }

  lemma GlyphFirst(c: Cell, rest: seq<Cell>)
    requires !c.continuation && PerfectlyPaired(rest) && PlainSeconds(rest)
    ensures PerfectlyPaired(Glyph(c) + rest) && PlainSeconds(Glyph(c) + rest)
  {
    var k, cells := |Glyph(c)|, Glyph(c) + rest;
    forall i | 0 <= i < |cells| ensures PairedAt(cells, i) {
      if i >= k { assert PairedAt(rest, i - k); }
      if i == k && |rest| > 0 { assert PairedAt(rest, 0); }
    }
  }

  /** A well-formed line is its own canonical form. */
  lemma {:induction false} WellFormedIsCanonical(cells: seq<Cell>)
    requires PerfectlyPaired(cells) && PlainSeconds(cells)
    ensures Canon(cells) == cells
  {
    if cells != [] {
      var rest := AfterGlyph(cells);
      AfterFirstGlyph(cells);
      hide PerfectlyPaired, AfterGlyph, Glyph;
      WellFormedIsCanonical(rest);
    }
  }

  lemma AfterFirstGlyph(cells: seq<Cell>)
    requires PerfectlyPaired(cells) && cells != [] && PlainSeconds(cells)
    ensures !cells[0].continuation && cells == Glyph(cells[0]) + AfterGlyph(cells) && PerfectlyPaired(AfterGlyph(cells))
    ensures PlainSeconds(AfterGlyph(cells))
  {
    assert PairedAt(cells, 0);
    var k := if cells[0].wide then 2 else 1;
    assert AfterGlyph(cells) == cells[k..];
    var rest := cells[k..];
    forall i | 0 <= i < |rest| ensures PairedAt(rest, i) {
      assert PairedAt(cells, i + k);
      if i == 0 && k == 2 { assert PairedAt(cells, 1); }
    }
  }

  lemma {:induction false} CanonKeepsLeads(cells: seq<Cell>)
    ensures Leads(Canon(cells)) == Leads(cells)
  {
    if cells != [] {
      if cells[0].continuation {
        CanonKeepsLeads(cells[1..]);
        assert Leads(cells) == [] + Leads(cells[1..]);
      } else {
        var rest := AfterGlyph(cells);
        CanonKeepsLeads(rest);
        var c := cells[0];
        assert (Glyph(c) + Canon(rest))[1..] == Glyph(c)[1..] + Canon(rest);
        if c.wide {
          assert ([CONTINUATION] + Canon(rest))[1..] == Canon(rest);
          assert Glyph(c)[1..] == [CONTINUATION];
          assert [] + Leads(Canon(rest)) == Leads(Canon(rest));
        } else {
          assert Glyph(c)[1..] + Canon(rest) == Canon(rest);
        }
        if c.wide && |cells| > 1 && cells[1].continuation {
          assert cells[1..][1..] == cells[2..];
          assert Leads(cells[1..]) == [] + Leads(cells[2..]);
        }
      }
    }
  }

  /** A row that closes on a glyph is perfectly paired. */
  lemma GlyphKeepsPairing(line: seq<Cell>, c: Cell)
    requires PerfectlyPaired(line) && !c.continuation
    ensures PerfectlyPaired(line + Glyph(c))
  {
    var r := line + Glyph(c);
    forall i | 0 <= i < |r|
      ensures PairedAt(r, i) && (r[i].wide ==> i + 1 < |r| && r[i + 1].continuation)
    {
      if i < |line| { assert PairedAt(line, i); }
    }
  }

  lemma PadKeepsPairing(line: seq<Cell>, n: nat)
    requires PerfectlyPaired(line) && |line| <= n
    ensures PerfectlyPaired(Pad(line, n))
  {
    var r := Pad(line, n);
    forall i | 0 <= i < |r|
      ensures PairedAt(r, i) && (r[i].wide ==> i + 1 < |r| && r[i + 1].continuation)
    {
      if i < |line| { assert PairedAt(line, i); }
    }
  }

  lemma {:induction false} SegmentsPaired(cells: seq<Cell>, n: nat, line: seq<Cell>)
    requires |line| < n && PerfectlyPaired(line)
    ensures forall s :: s in Segments(cells, n, line) ==> PerfectlyPaired(s)
    decreases |cells|, |line|
  {
    hide PerfectlyPaired;
    NoCellsPaired();
    if cells == [] {
    } else if cells[0].continuation {
      SegmentsPaired(cells[1..], n, line);
    } else if cells[0].wide && n == 1 {
      SegmentsPaired(cells[Min(2, |cells|)..], n, []);
    } else if cells[0].wide && |line| + 1 >= n {
      SegmentsPaired(cells, n, []);
    } else {
      GlyphKeepsPairing(line, cells[0]);
      var line' := line + Glyph(cells[0]);
      SegmentsPaired(AfterGlyph(cells), n, if |line'| >= n then [] else line');
    }
  }

  lemma NoCellsPaired()
    ensures PerfectlyPaired([])
  {
  }

  /** Re-wrapping any cells to any width gives rows of that width, soft-wrapped except for
      the last, and perfectly paired even where the input is not. */
  lemma RewrapShape(cells: seq<Cell>, n: nat)
    requires n > 0
    ensures var rows := Rewrap(cells, n);
            && rows != [] && HasWidth(rows, n)
            && (forall i :: 0 <= i < |rows| ==> (rows[i].softWrapped <==> i + 1 < |rows|))
            && (forall i :: 0 <= i < |rows| ==> PerfectlyPaired(rows[i].cells))
  {
    hide PerfectlyPaired;
    NoCellsPaired();
    SegmentsPaired(cells, n, []);
    var segments := LineSegments(cells, n);
    var rows := Rewrap(cells, n);
    forall i | 0 <= i < |rows| ensures PerfectlyPaired(rows[i].cells) {
      assert segments[i] in segments;
      PadKeepsPairing(segments[i], n);
    }
  }

  /** At width two or more every leading cell survives, in order. A row holds its segment
      and then blanks; a row that is not the last holds at most one blank beyond its
      segment, and then the next row starts with a wide cell. */
  lemma RewrapKeepsContent(cells: seq<Cell>, n: nat)
    requires n >= 2
    ensures var rows, segments := Rewrap(cells, n), LineSegments(cells, n);
            && |rows| == |segments|
            && (forall i :: 0 <= i < |rows| ==> rows[i].cells == Pad(segments[i], n))
            && Filled(segments, n)
            && Flatten(segments) == Canon(cells)
            && Leads(Flatten(segments)) == Leads(cells)
  {
    SegmentsHoldTheLine(cells, n, []);
    CanonKeepsLeads(cells);
    assert [] + Canon(cells) == Canon(cells);
    if Segments(cells, n, []) == [] {
      FlattenOne<Cell>([]);
    }
  }

  // -------------------------------------------------------------------------
  // Lines of re-wrapped rows
  // -------------------------------------------------------------------------

  /** Put a row's cells before the first line, or make them a line of their own. */
  function Join(row: Row, lines: seq<seq<Cell>>): seq<seq<Cell>> {
    if row.softWrapped && lines != [] then [row.cells + lines[0]] + lines[1..] else [row.cells] + lines
  }

  lemma LinesStep(row: Row, rest: seq<Row>)
    ensures Lines([row] + rest) == Join(row, Lines(rest))
  {
    assert ([row] + rest)[1..] == rest;
  }

  lemma JoinConcat(row: Row, la: seq<seq<Cell>>, lb: seq<seq<Cell>>)
    requires la != [] || !row.softWrapped
    ensures Join(row, la + lb) == Join(row, la) + lb
  {
    if la != [] {
      assert (la + lb)[1..] == la[1..] + lb;
    }
  }

  /** No line crosses a boundary that is not soft-wrapped. */
  lemma {:induction false} LinesConcat(a: seq<Row>, b: seq<Row>)
    requires a == [] || !a[|a| - 1].softWrapped
    ensures Lines(a + b) == Lines(a) + Lines(b)
  {
    hide Lines, Join;
    if a == [] {
      assert a + b == b;
      assert Lines(a) == [];
      assert [] + Lines(b) == Lines(b);
    } else {
      var rest := a[1..];
      assert a + b == [a[0]] + (rest + b) && a == [a[0]] + rest;
      LinesConcat(rest, b);
      LinesStep(a[0], rest + b);
      LinesStep(a[0], rest);
      assert rest == [] ==> Lines(rest) == [];
      JoinConcat(a[0], Lines(rest), Lines(b));
    }
  }
}
