/** `calculateWinner`: the first completed line of a board, in table order. */
module WinDetector {
  import opened Wrappers
  import opened Cells

  /** An index triple `[a, b, c]` of the line table. */
  type Line = (Square, Square, Square)

  /** The fixed line table, scanned in this order: rows, columns, diagonals. */
  const Lines: seq<Line> := [
    (0, 1, 2), (3, 4, 5), (6, 7, 8),
    (0, 3, 6), (1, 4, 7), (2, 5, 8),
    (0, 4, 8), (2, 4, 6)
  ]

  /** The test applied to each line: the first cell is occupied and all three agree. */
  predicate Complete(b: Board, l: Line) {
    b[l.0] != Empty && b[l.0] == b[l.1] && b[l.1] == b[l.2]
  }

  /** Index of the first complete line at or after position `from` of the table. */
  function FirstComplete(b: Board, from: nat): (r: Option<nat>)
    requires from <= |Lines|
    ensures r.Some? ==> from <= r.value < |Lines| && Complete(b, Lines[r.value])
    ensures r.Some? ==> forall k :: from <= k < r.value ==> !Complete(b, Lines[k])
    ensures r.None? ==> forall k :: from <= k < |Lines| ==> !Complete(b, Lines[k])
    decreases |Lines| - from
  {
    if from == |Lines| then None
    else if Complete(b, Lines[from]) then Some(from)
    else FirstComplete(b, from + 1)
  }

  /** The winning line, or `None` when no line of the table is complete.  The
      result is the earliest complete line of the table, so it is unique. */
  function CalculateWinner(b: Board): (r: Option<Line>)
    ensures r.Some? ==> r.value in Lines && Complete(b, r.value)
    ensures r.None? <==> forall k :: 0 <= k < |Lines| ==> !Complete(b, Lines[k])
  {
    match FirstComplete(b, 0)
    case None => None
    case Some(k) => Some(Lines[k])
  }

  /** Rows before columns before diagonals: when line `k` is complete, the
      reported line is complete and comes no later than `k` in the table, and
      every line before it is incomplete. */
  lemma EarliestLineWins(b: Board, k: nat)
    requires k < |Lines| && Complete(b, Lines[k])
    ensures exists j :: 0 <= j <= k && CalculateWinner(b) == Some(Lines[j]) &&
                        forall i :: 0 <= i < j ==> !Complete(b, Lines[i])
  {
    var j := FirstComplete(b, 0).value;
    assert j <= k;
    assert CalculateWinner(b) == Some(Lines[j]);
  }

  // An independent, geometric description of three in a row.

  predicate RowOf(b: Board, r: int, p: Cell)
    requires 0 <= r < 3
  {
    b[3 * r] == p && b[3 * r + 1] == p && b[3 * r + 2] == p
  }

  predicate ColumnOf(b: Board, c: int, p: Cell)
    requires 0 <= c < 3
  {
    b[c] == p && b[c + 3] == p && b[c + 6] == p
  }

  predicate DiagonalOf(b: Board, p: Cell) {
    b[0] == p && b[4] == p && b[8] == p
  }

  predicate AntiDiagonalOf(b: Board, p: Cell) {
    b[2] == p && b[4] == p && b[6] == p
  }

  /** `p` fills a whole row, column or diagonal. */
  predicate ThreeInARow(b: Board, p: Cell) {
    || (exists r :: 0 <= r < 3 && RowOf(b, r, p))
    || (exists c :: 0 <= c < 3 && ColumnOf(b, c, p))
    || DiagonalOf(b, p)
    || AntiDiagonalOf(b, p)
  }

  /** The table holds exactly the rows, columns and diagonals: a winner is
      reported if and only if a player fills one of them. */
  lemma WinnerIffThreeInARow(b: Board)
    ensures CalculateWinner(b).Some? <==> ThreeInARow(b, X) || ThreeInARow(b, O)
  {
    if CalculateWinner(b).Some? {
      var l := CalculateWinner(b).value;
      LineIsGeometric(b, l);
      assert ThreeInARow(b, b[l.0]);
    } else {
      assert forall k :: 0 <= k < |Lines| ==> !Complete(b, Lines[k]);
      forall p, r | p != Empty && 0 <= r < 3
        ensures !RowOf(b, r, p)
      {
        assert !Complete(b, Lines[r]);
      }
      forall p, c | p != Empty && 0 <= c < 3
        ensures !ColumnOf(b, c, p)
      {
        assert !Complete(b, Lines[3 + c]);
      }
      assert !Complete(b, Lines[6]) && !Complete(b, Lines[7]);
    }
  }

  /** The symbol in the first cell of the reported line fills that row, column or diagonal. */
  lemma WinnerSymbolHasThreeInARow(b: Board)
    requires CalculateWinner(b).Some?
    ensures b[CalculateWinner(b).value.0] != Empty
    ensures ThreeInARow(b, b[CalculateWinner(b).value.0])
  {
    LineIsGeometric(b, CalculateWinner(b).value);
  }

  lemma LineIsGeometric(b: Board, l: Line)
    requires l in Lines && Complete(b, l)
    ensures ThreeInARow(b, b[l.0])
  {
    var p := b[l.0];
    if l == Lines[0] { assert RowOf(b, 0, p); }
    else if l == Lines[1] { assert RowOf(b, 1, p); }
    else if l == Lines[2] { assert RowOf(b, 2, p); }
    else if l == Lines[3] { assert ColumnOf(b, 0, p); }
    else if l == Lines[4] { assert ColumnOf(b, 1, p); }
    else if l == Lines[5] { assert ColumnOf(b, 2, p); }
  }
}
