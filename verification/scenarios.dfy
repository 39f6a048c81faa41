/** Concrete games played through the transitions. */
module Scenarios {
  import opened Wrappers
  import opened Cells
  import opened WinDetector
  import opened Game
  import opened GameView

  /** No line of the table, spelled out line by line so that a concrete board is
      checked cell by cell; `NoLineNoWinner` ties it to `CalculateWinner`. */
  predicate NoLineOn(b: Board) {
    && !Complete(b, (0, 1, 2)) && !Complete(b, (3, 4, 5)) && !Complete(b, (6, 7, 8))
    && !Complete(b, (0, 3, 6)) && !Complete(b, (1, 4, 7)) && !Complete(b, (2, 5, 8))
    && !Complete(b, (0, 4, 8)) && !Complete(b, (2, 4, 6))
  }

  lemma NoLineNoWinner(b: Board)
    requires NoLineOn(b)
    ensures CalculateWinner(b).None?
  {
  }

  // The next three lemmas only regroup a list of clicks built one click at a time
  // into a list display; they keep the scenario proofs small.

  lemma ThreeMoves(a: Square, b: Square, c: Square)
    ensures [] + [a] + [b] + [c] == [a, b, c]
  {
  }

  lemma FiveMoves(a: Square, b: Square, c: Square, d: Square, e: Square)
    ensures [] + [a] + [b] + [c] + [d] + [e] == [a, b, c, d, e]
  {
  }

  lemma NineMoves(a: Square, b: Square, c: Square, d: Square, e: Square,
                  f: Square, g: Square, h: Square, i: Square)
    ensures [] + [a] + [b] + [c] + [d] + [e] + [f] + [g] + [h] + [i] == [a, b, c, d, e, f, g, h, i]
  {
  }

  /** One accepted click, on a board whose contents are known. */
  lemma PlayOn(ms: seq<Square>, i: Square, p: Cell, b: Board)
    requires Current(Play(ms)).squares == b
    requires NoLineOn(b) && b[i] == Empty && Mover(Play(ms).xIsNext) == p
    ensures Current(Play(ms + [i])).squares == b[i := p]
    ensures Play(ms + [i]).stepNumber == Play(ms).stepNumber + 1
    ensures |Play(ms + [i]).history| == Play(ms).stepNumber + 2
    ensures Play(ms + [i]).xIsNext == !Play(ms).xIsNext
  {
    NoLineNoWinner(b);
    assert (ms + [i])[..|ms|] == ms;
  }

  /** A click keeps every record up to the displayed one. */
  lemma PlayKeeps(ms: seq<Square>, i: Square, k: nat)
    requires k <= Play(ms).stepNumber
    ensures Play(ms + [i]).history[k] == Play(ms).history[k]
  {
    assert (ms + [i])[..|ms|] == ms;
    var s := Play(ms);
    if Accepts(s, i) {
      assert HandleClick(s, i).history[..s.stepNumber + 1][k] == s.history[..s.stepNumber + 1][k];
    }
  }

  /** X plays 0, 1, 2 while O plays 4, 7: X wins with the top row. */
  lemma TopRowWin()
    ensures CalculateWinner(Current(Play([0, 4, 1, 7, 2])).squares) == Some((0, 1, 2))
    ensures Status(Play([0, 4, 1, 7, 2])) == Winner(X)
  {
    var b1 := EmptyBoard[0 := X];
    var b2 := b1[4 := O];
    var b3 := b2[1 := X];
    var b4 := b3[7 := O];
    var b5 := b4[2 := X];
    var m0: seq<Square> := [];
    PlayOn(m0, 0, X, EmptyBoard);
    var m1 := m0 + [0];
    PlayOn(m1, 4, O, b1);
    var m2 := m1 + [4];
    PlayOn(m2, 1, X, b2);
    var m3 := m2 + [1];
    PlayOn(m3, 7, O, b3);
    var m4 := m3 + [7];
    PlayOn(m4, 2, X, b4);
    var m5 := m4 + [2];
    FiveMoves(0, 4, 1, 7, 2);
    assert Complete(b5, (0, 1, 2));
  }

  /** The boards of the drawn game below, before each move: no line, target cell free. */
  lemma DrawnBoards()
    ensures var b4 := EmptyBoard[0 := X][1 := O][2 := X][4 := O];
      && NoLineOn(b4) && b4[3] == Empty && b4[8] == Empty
      && NoLineOn(b4[3 := X]) && b4[3 := X][5] == Empty
      && NoLineOn(b4[3 := X][5 := O]) && b4[3 := X][5 := O][7] == Empty
      && NoLineOn(b4[3 := X][5 := O][7 := X]) && b4[3 := X][5 := O][7 := X][6] == Empty
      && NoLineOn(b4[3 := X][5 := O][7 := X][6 := O]) && b4[3 := X][5 := O][7 := X][6 := O][8] == Empty
      && NoLineOn(b4[3 := X][5 := O][7 := X][6 := O][8 := X])
  {
  }

  /** The first four moves of the drawn game below: X 0, O 1, X 2, O 4. */
  lemma DrawnOpening()
    ensures var s := Play([] + [0] + [1] + [2] + [4]);
      && s.stepNumber == 4 && s.xIsNext
      && Current(s).squares == EmptyBoard[0 := X][1 := O][2 := X][4 := O]
  {
    var b1 := EmptyBoard[0 := X];
    var b2 := b1[1 := O];
    var b3 := b2[2 := X];
    var m0: seq<Square> := [];
    PlayOn(m0, 0, X, EmptyBoard);
    var m1 := m0 + [0];
    PlayOn(m1, 1, O, b1);
    var m2 := m1 + [1];
    PlayOn(m2, 2, X, b2);
    var m3 := m2 + [2];
    PlayOn(m3, 4, O, b3);
  }

  /** Moves 5 to 7 of the drawn game: X 3, O 5, X 7; record 4 is kept. */
  lemma DrawnMiddle()
    ensures var s := Play([] + [0] + [1] + [2] + [4] + [3] + [5] + [7]);
      && s.stepNumber == 7 && !s.xIsNext
      && Current(s).squares == EmptyBoard[0 := X][1 := O][2 := X][4 := O][3 := X][5 := O][7 := X]
      && s.history[4] == Current(Play([] + [0] + [1] + [2] + [4]))
  {
    var b4 := EmptyBoard[0 := X][1 := O][2 := X][4 := O];
    var b5 := b4[3 := X];
    var b6 := b5[5 := O];
    var m4: seq<Square> := [] + [0] + [1] + [2] + [4];
    DrawnOpening();
    DrawnBoards();
    PlayOn(m4, 3, X, b4);
    var m5 := m4 + [3];
    PlayOn(m5, 5, O, b5);
    var m6 := m5 + [5];
    PlayOn(m6, 7, X, b6);
    var m7 := m6 + [7];
    PlayKeeps(m4, 3, 4);
    PlayKeeps(m5, 5, 4);
    PlayKeeps(m6, 7, 4);
  }

  /** X 0, O 1, X 2, O 4, X 3, O 5, X 7, O 6, X 8 fills the board without a
      line: the game is drawn, and its record 4 still has cell 8 free. */
  lemma DrawnGame()
    ensures var s := Play([0, 1, 2, 4, 3, 5, 7, 6, 8]);
      && |s.history| == 10 && s.stepNumber == 9
      && Status(s) == Drawn
      && s.history[4].squares[8] == Empty
      && CalculateWinner(s.history[4].squares).None?
  {
    var b7 := EmptyBoard[0 := X][1 := O][2 := X][4 := O][3 := X][5 := O][7 := X];
    var b8 := b7[6 := O];
    var b9 := b8[8 := X];
    var m4: seq<Square> := [] + [0] + [1] + [2] + [4];
    var m7: seq<Square> := m4 + [3] + [5] + [7];
    DrawnOpening();
    DrawnMiddle();
    DrawnBoards();
    PlayOn(m7, 6, O, b7);
    var m8 := m7 + [6];
    PlayOn(m8, 8, X, b8);
    var m9 := m8 + [8];
    PlayKeeps(m7, 6, 4);
    PlayKeeps(m8, 8, 4);
    NoLineNoWinner(Current(Play(m4)).squares);
    NoLineNoWinner(b9);
    NineMoves(0, 1, 2, 4, 3, 5, 7, 6, 8);
  }

  /** After the drawn game above, jumping back to move 4 still reports a draw
      although cell 8 is free and a click on it is accepted; the corrected
      status names X as the next player instead. */
  lemma DrawnStatusOnUnfinishedBoard()
    ensures var s := JumpTo(Play([0, 1, 2, 4, 3, 5, 7, 6, 8]), 4);
      && Valid(s)
      && Status(s) == Drawn
      && Current(s).squares[8] == Empty
      && Accepts(s, 8)
      && HandleClick(s, 8) != s
      && IntendedStatus(s) == Next(X)
  {
    DrawnGame();
    JumpToPreservesValid(Play([0, 1, 2, 4, 3, 5, 7, 6, 8]), 4);
  }

  /** Three moves, a jump back to move 1, then a new move: the old record 2 is
      discarded and the history holds three records, the last one O at 8. */
  lemma JumpBackThenMove()
    ensures |Play([0, 4, 1]).history| == 4
    ensures var s := HandleClick(JumpTo(Play([0, 4, 1]), 1), 8);
      && |s.history| == 3
      && s.history[..2] == Play([0, 4, 1]).history[..2]
      && Current(s).squares[8] == O
      && Current(s).squares[4] == Empty
  {
    var b1 := EmptyBoard[0 := X];
    var b2 := b1[4 := O];
    var m0: seq<Square> := [];
    PlayOn(m0, 0, X, EmptyBoard);
    var m1 := m0 + [0];
    PlayOn(m1, 4, O, b1);
    var m2 := m1 + [4];
    PlayOn(m2, 1, X, b2);
    var m3 := m2 + [1];
    ThreeMoves(0, 4, 1);
    var j := JumpTo(Play(m3), 1);
    PlayKeeps(m1, 4, 1);
    PlayKeeps(m2, 1, 1);
    NoLineNoWinner(b1);
    assert Accepts(j, 8);
  }
}
