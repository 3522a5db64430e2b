/** The bounded history of rows that left the top of the screen: index 0 is the row that
    left last. */
module Scrollback {
  import opened Common
  import opened Cells

  const DEFAULT_MAX_LINES: nat := 10000

  datatype History = History(rows: seq<Row>, maxLines: nat) {
    predicate Valid() { |rows| <= maxLines }
  }

  function Push(h: History, row: Row): (r: History)
    ensures h.Valid() ==> r.Valid()
    ensures r.maxLines == h.maxLines
  {
    if h.maxLines == 0 then h
    else if |h.rows| >= h.maxLines then h.(rows := [row] + h.rows[..|h.rows| - 1])
    else h.(rows := [row] + h.rows)
  }

  /** Push rows in order, so that the last one ends at index 0. */
  function PushAll(h: History, rows: seq<Row>): (r: History)
    ensures h.Valid() ==> r.Valid()
    ensures r.maxLines == h.maxLines
    decreases rows
  {
    if rows == [] then h else PushAll(Push(h, rows[0]), rows[1..])
  }

  function Clear(h: History): History {
    h.(rows := [])
  }

  function SetMaxLines(h: History, maxLines: nat): History {
    History(if |h.rows| > maxLines then h.rows[..maxLines] else h.rows, maxLines)
  }

  /** The history read oldest first. */
  function Tape(h: History): (t: seq<Row>)
    ensures |t| == |h.rows|
  {
    Reverse(h.rows)
  }

  /** The last `n` elements. */
  function Last<T>(s: seq<T>, n: nat): seq<T> {
    if |s| <= n then s else s[|s| - n..]
  }

  lemma PushExtendsTape(h: History, row: Row)
    requires h.Valid()
    ensures Tape(Push(h, row)) == Last(Tape(h) + [row], h.maxLines)
  {
  }

  /** Pushing rows appends them to the tape and forgets only the oldest rows beyond the
      capacity. */
  lemma {:induction false} PushAllExtendsTape(h: History, rows: seq<Row>)
    requires h.Valid()
    ensures Tape(PushAll(h, rows)) == Last(Tape(h) + rows, h.maxLines)
    decreases rows
  {
    if rows == [] {
      assert Tape(h) + [] == Tape(h);
    } else {
      var h' := Push(h, rows[0]);
      PushExtendsTape(h, rows[0]);
      PushAllExtendsTape(h', rows[1..]);
      assert Tape(h) + rows == (Tape(h) + [rows[0]]) + rows[1..];
      LastOfLast(Tape(h) + [rows[0]], rows[1..], h.maxLines);
    }
  }

  /** A lower capacity forgets the oldest rows, and only those beyond it. */
  lemma SetMaxLinesKeepsNewest(h: History, maxLines: nat)
    ensures var r := SetMaxLines(h, maxLines);
            r.maxLines == maxLines && r.Valid() && Tape(r) == Last(Tape(h), maxLines)
  {
  }

  lemma LastOfLast<T>(a: seq<T>, b: seq<T>, n: nat)
    ensures Last(Last(a, n) + b, n) == Last(a + b, n)
  {
  }
}

/** The history as an object. */
module ScrollbackBuffers {
  import opened Cells
  import S = Scrollback

  class ScrollbackBuffer {
    var rows: seq<Row>
    var maxLines: nat

    ghost function State(): S.History
      reads this
    {
      S.History(rows, maxLines)
    }

    ghost predicate Valid()
      reads this
    {
      State().Valid()
    }

    constructor (maxLines: nat)
      ensures State() == S.History([], maxLines)
    {
      rows := [];
      this.maxLines := maxLines;
    }

    method Push(row: Row)
      modifies this
      ensures State() == S.Push(old(State()), row)
    {
      if maxLines == 0 {
        return;
      }
      if |rows| >= maxLines {
        rows := rows[..|rows| - 1];
      }
      rows := [row] + rows;
    }

    method Clear()
      modifies this
      ensures State() == S.Clear(old(State()))
    {
      rows := [];
    }

    method SetMaxLines(newMax: nat)
      modifies this
      ensures State() == S.SetMaxLines(old(State()), newMax)
      ensures Valid()
    {
      maxLines := newMax;
      while |rows| > maxLines
        invariant maxLines == newMax && |rows| <= |old(rows)|
        invariant rows == old(rows)[..|rows|] && (|rows| >= maxLines || rows == old(rows))
        decreases |rows|
      {
        rows := rows[..|rows| - 1];
      }
    }
  }
}
