/** What `Game.render` derives from the state: the status line and the move list. */
module GameView {
  import opened Wrappers
  import opened Cells
  import opened WinDetector
  import opened Game

  /** The status line, as a value instead of text. */
  datatype GameStatus = Winner(player: Cell) | Drawn | Next(player: Cell)

  /** The status as the component computes it: a winner on the displayed board,
      else a draw when the history holds ten records, else the player to move. */
  function Status(s: State): (r: GameStatus)
    requires s.stepNumber < |s.history|
    ensures r.Winner? <==> CalculateWinner(Current(s).squares).Some?
    ensures r.Winner? ==> r.player != Empty && ThreeInARow(Current(s).squares, r.player)
    ensures r.Drawn? <==> CalculateWinner(Current(s).squares).None? && |s.history| == 10
    ensures r.Next? ==> r.player != Empty
  {
    var squares := Current(s).squares;
    match CalculateWinner(squares)
    case Some(l) => WinnerSymbolHasThreeInARow(squares); Winner(squares[l.0])
    case None => if |s.history| == 10 then Drawn else Next(Mover(s.xIsNext))
  }

  /** The status with the draw test on the displayed step rather than on the
      length of the history. */
  function IntendedStatus(s: State): (r: GameStatus)
    requires s.stepNumber < |s.history|
    ensures r.Winner? <==> CalculateWinner(Current(s).squares).Some?
    ensures r.Winner? ==> r.player != Empty && ThreeInARow(Current(s).squares, r.player)
    ensures r.Drawn? <==> CalculateWinner(Current(s).squares).None? && s.stepNumber == 9
    ensures r.Next? ==> r.player != Empty
  {
    var squares := Current(s).squares;
    match CalculateWinner(squares)
    case Some(l) => WinnerSymbolHasThreeInARow(squares); Winner(squares[l.0])
    case None => if s.stepNumber == 9 then Drawn else Next(Mover(s.xIsNext))
  }

  /** In a valid state the corrected status means what it says: a draw exactly
      when the displayed board is full without a winner, and "next player p"
      exactly when some click is accepted, and every accepted click places `p`. */
  lemma IntendedStatusIsSound(s: State)
    requires Valid(s)
    ensures IntendedStatus(s).Drawn? <==>
      CalculateWinner(Current(s).squares).None? && forall j :: 0 <= j < 9 ==> Current(s).squares[j] != Empty
    ensures IntendedStatus(s).Next? <==> exists i: Square :: Accepts(s, i)
    ensures IntendedStatus(s).Next? ==>
      forall i: Square :: Accepts(s, i) ==> Current(HandleClick(s, i)).squares[i] == IntendedStatus(s).player
  {
    FilledAtStep(s.history, s.stepNumber);
    if IntendedStatus(s).Next? {
      assert CountFilled(Current(s).squares) < 9;
      var j :| 0 <= j < 9 && Current(s).squares[j] == Empty;
      assert Accepts(s, j);
    }
  }

  /** Where the as-written and corrected status agree: whenever the latest
      record is displayed. */
  lemma StatusAgreesAtLatestStep(s: State)
    requires Valid(s) && s.stepNumber == |s.history| - 1
    ensures Status(s) == IntendedStatus(s)
  {
  }

  /** A reported winner ends the game: every click is ignored. */
  lemma WinnerEndsGame(s: State, i: Square)
    requires s.stepNumber < |s.history| && Status(s).Winner?
    ensures HandleClick(s, i) == s
  {
  }

  /** The winner is the player who made the displayed move: the board before it
      had no complete line, so the new line passes through the new symbol. */
  lemma WinnerIsLastMover(s: State)
    requires Valid(s) && Status(s).Winner?
    ensures s.stepNumber > 0
    ensures Status(s).player == MoverAt(s.stepNumber)
  {
    var h, k := s.history, s.stepNumber;
    var l := CalculateWinner(h[k].squares).value;
    if k == 0 {
      assert false;
    }
    assert StepOk(h, k);
  }

  /** The status names the player whose symbol the next accepted click writes. */
  lemma NextNamesTheMover(s: State, i: Square)
    requires Valid(s) && Status(s).Next? && Accepts(s, i)
    ensures Current(HandleClick(s, i)).squares[i] == Status(s).player
  {
  }

  /** A draw on the latest record is a full board without a winner. */
  lemma DrawnAtLatestStepIsFull(s: State)
    requires Valid(s) && Status(s).Drawn? && s.stepNumber == |s.history| - 1
    ensures forall j :: 0 <= j < 9 ==> Current(s).squares[j] != Empty
    ensures forall i: Square :: HandleClick(s, i) == s
  {
    FilledAtStep(s.history, s.stepNumber);
  }

  // ---------------------------------------------------------------------------
  // The move list

  /** `(row, column)` of the move that produced a record, `None` for the start. */
  function Coordinates(rec: Record): (c: Option<(nat, nat)>)
    ensures c.None? <==> rec.squareNumber.None?
    ensures c.Some? ==> c.value.0 < 3 && c.value.1 < 3 && 3 * c.value.0 + c.value.1 == rec.squareNumber.value
  {
    match rec.squareNumber
    case None => None
    case Some(q) => Some((q / 3, q % 3))
  }

  /** In a game, record `k` has coordinates exactly when it is not the start, and
      they locate the one cell in which it differs from the record before it. */
  lemma CoordinatesLocateTheMove(h: seq<Record>, k: nat)
    requires ValidHistory(h) && k < |h|
    ensures Coordinates(h[k]).None? <==> k == 0
    ensures k > 0 ==> var c := Coordinates(h[k]).value;
      && h[k - 1].squares[3 * c.0 + c.1] == Empty
      && h[k].squares[3 * c.0 + c.1] == MoverAt(k)
      && forall j :: 0 <= j < 9 && j != 3 * c.0 + c.1 ==> h[k].squares[j] == h[k - 1].squares[j]
  {
    if k > 0 {
      assert StepOk(h, k);
    }
  }

  /** The caption of a list entry: "Go to game start" or "Go to move #n". */
  datatype Label = GameStart | GoToMove(move: nat)

  /** One list entry: the step it jumps to, its caption, whether it is shown in
      bold (the displayed step) and the coordinates of its move. */
  datatype Entry = Entry(move: nat, caption: Label, isCurrent: bool, coordinates: Option<(nat, nat)>)

  function EntryAt(s: State, move: nat): (e: Entry)
    requires move < |s.history|
    ensures e.move == move
    ensures e.caption == GameStart <==> move == 0
    ensures e.caption.GoToMove? ==> e.caption.move == move
    ensures e.coordinates == Coordinates(s.history[move])
    ensures e.isCurrent <==> move == s.stepNumber
  {
    Entry(move, if move == 0 then GameStart else GoToMove(move),
          move == s.stepNumber, Coordinates(s.history[move]))
  }

  function Reverse<T>(xs: seq<T>): (r: seq<T>)
    ensures |r| == |xs|
    ensures forall j :: 0 <= j < |xs| ==> r[j] == xs[|xs| - 1 - j]
  {
    if xs == [] then [] else Reverse(xs[1..]) + [xs[0]]
  }

  /** The rendered move list: one entry per record, reversed when the order is descending. */
  function Moves(s: State): (r: seq<Entry>)
    ensures |r| == |s.history|
    ensures s.order == Asc ==> forall j :: 0 <= j < |r| ==> r[j] == EntryAt(s, j)
    ensures s.order == Desc ==> forall j :: 0 <= j < |r| ==> r[j] == EntryAt(s, |r| - 1 - j)
  {
    var asc := seq(|s.history|, j requires 0 <= j < |s.history| => EntryAt(s, j));
    assert forall j :: 0 <= j < |asc| ==> asc[j] == EntryAt(s, j);
    if s.order == Desc then Reverse(asc) else asc
  }

  /** Toggling the order reverses the rendered list. */
  lemma ChangeOrderReversesMoves(s: State)
    ensures Moves(ChangeOrder(s)) == Reverse(Moves(s))
  {
    var a, b := Moves(ChangeOrder(s)), Reverse(Moves(s));
    assert |a| == |b|;
    forall j | 0 <= j < |a|
      ensures a[j] == b[j]
    {
    }
  }

  /** Every entry jumps to an offered step, and exactly one entry is in bold. */
  lemma MovesListEveryStepOnce(s: State)
    requires Valid(s)
    ensures forall j :: 0 <= j < |Moves(s)| ==> Offered(s, Jump(Moves(s)[j].move))
    ensures forall j, j' :: 0 <= j < |Moves(s)| && 0 <= j' < |Moves(s)| && Moves(s)[j].move == Moves(s)[j'].move ==> j == j'
    ensures exists j :: 0 <= j < |Moves(s)| && Moves(s)[j].isCurrent
    ensures forall j, j' :: 0 <= j < |Moves(s)| && 0 <= j' < |Moves(s)| && Moves(s)[j].isCurrent && Moves(s)[j'].isCurrent ==> j == j'
  {
    var m := Moves(s);
    var j := if s.order == Asc then s.stepNumber else |s.history| - 1 - s.stepNumber;
    assert m[j].isCurrent;
  }
}
