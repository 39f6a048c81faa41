/** The `Game` component's state and its three transitions, without React. */
module Game {
  import opened Wrappers
  import opened Cells
  import opened WinDetector

  /** Display order of the move list. */
  datatype Order = Asc | Desc

  /** One history entry: a board snapshot and the index of the move that produced
      it (`None` for the initial empty board). */
  datatype Record = Record(squares: Board, squareNumber: Option<Square>)

  /** The component state, field for field. */
  datatype State = State(history: seq<Record>, stepNumber: nat, order: Order, xIsNext: bool)

  const InitialRecord: Record := Record(EmptyBoard, None)

  /** The symbol placed by the player to move. */
  function Mover(xIsNext: bool): Cell {
    if xIsNext then X else O
  }

  /** The symbol placed by the `k`-th move of a game: X moves first. */
  function MoverAt(k: nat): Cell {
    if k % 2 == 1 then X else O
  }

  /** `next` follows `prev` by one legal move of `p`: the board had no winner, the
      move's cell was empty, and only that cell changed, to `p`. */
  predicate IsMove(prev: Record, next: Record, p: Cell) {
    && CalculateWinner(prev.squares).None?
    && next.squareNumber.Some?
    && prev.squares[next.squareNumber.value] == Empty
    && next.squares == prev.squares[next.squareNumber.value := p]
  }

  predicate StepOk(h: seq<Record>, k: nat)
    requires 1 <= k < |h|
  {
    IsMove(h[k - 1], h[k], MoverAt(k))
  }

  /** A history is a game from the empty board, one legal alternating move per record. */
  predicate ValidHistory(h: seq<Record>) {
    && |h| >= 1
    && h[0] == InitialRecord
    && forall k :: 1 <= k < |h| ==> StepOk(h, k)
  }

  /** The invariant every reachable state keeps. */
  predicate Valid(s: State) {
    && ValidHistory(s.history)
    && s.stepNumber < |s.history|
    && s.xIsNext == (s.stepNumber % 2 == 0)
  }

  /** The constructor's state: one empty record, step 0, ascending, X to move. */
  function Initial(): (s: State)
    ensures Valid(s)
    ensures |s.history| == 1 && s.stepNumber == 0 && s.xIsNext
    ensures s.order == Asc
    ensures forall j :: 0 <= j < 9 ==> s.history[0].squares[j] == Empty
  {
    State([InitialRecord], 0, Asc, true)
  }

  /** The displayed record, `history[stepNumber]`. */
  function Current(s: State): Record
    requires s.stepNumber < |s.history|
  {
    s.history[s.stepNumber]
  }

  /** `handleClick(i)` goes ahead: no winner yet on the displayed board and cell `i` empty. */
  predicate Accepts(s: State, i: Square)
    requires s.stepNumber < |s.history|
  {
    CalculateWinner(Current(s).squares).None? && Current(s).squares[i] == Empty
  }

  /** A click is accepted exactly when neither player has three in a row on the
      displayed board and the clicked cell is free; such a board is never full. */
  lemma AcceptsIffOpenCell(s: State, i: Square)
    requires s.stepNumber < |s.history|
    ensures Accepts(s, i) <==>
      && !ThreeInARow(Current(s).squares, X) && !ThreeInARow(Current(s).squares, O)
      && Current(s).squares[i] == Empty
    ensures Accepts(s, i) ==> CountFilled(Current(s).squares) < 9
  {
    WinnerIffThreeInARow(Current(s).squares);
  }

  /** `handleClick(i)`: ignored on a decided board or an occupied cell; otherwise the
      records after the displayed one are dropped and a copy of the displayed board
      with the mover's symbol at `i` is appended and displayed. */
  function HandleClick(s: State, i: Square): (r: State)
    requires s.stepNumber < |s.history|
    ensures !Accepts(s, i) ==> r == s
    ensures Accepts(s, i) <==> r != s
    ensures Accepts(s, i) ==>
      && |r.history| == s.stepNumber + 2
      && r.history[..s.stepNumber + 1] == s.history[..s.stepNumber + 1]
      && r.stepNumber == |r.history| - 1
      && r.xIsNext == !s.xIsNext
      && r.order == s.order
    ensures Accepts(s, i) ==>
      && Current(r).squareNumber == Some(i)
      && Current(r).squares[i] == Mover(s.xIsNext)
      && forall j :: 0 <= j < 9 && j != i ==> Current(r).squares[j] == Current(s).squares[j]
  {
    var kept := s.history[..s.stepNumber + 1];
    var squares := kept[|kept| - 1].squares;
    if CalculateWinner(squares).Some? || squares[i] != Empty then s
    else
      State(kept + [Record(squares[i := Mover(s.xIsNext)], Some(i))], |kept|, s.order, !s.xIsNext)
  }

  /** `jumpTo(step)`: display record `step`; the history and order stay as they are. */
  function JumpTo(s: State, step: nat): (r: State)
    ensures r.history == s.history && r.order == s.order
    ensures r.stepNumber == step
    ensures r.xIsNext <==> step % 2 == 0
  {
    s.(stepNumber := step, xIsNext := step % 2 == 0)
  }

  /** `changeOrder()`: swap ascending and descending; nothing else changes. */
  function ChangeOrder(s: State): (r: State)
    ensures r.order != s.order
    ensures r.history == s.history && r.stepNumber == s.stepNumber && r.xIsNext == s.xIsNext
  {
    if s.order == Asc then s.(order := Desc) else s.(order := Asc)
  }

  // ---------------------------------------------------------------------------
  // The invariant

  /** Record `k` of a game holds exactly `k` occupied cells. */
  lemma {:induction false} FilledAtStep(h: seq<Record>, k: nat)
    requires ValidHistory(h) && k < |h|
    ensures CountFilled(h[k].squares) == k
  {
    if k == 0 {
      assert forall j :: 0 <= j < 9 ==> h[0].squares[j] == Empty;
    } else {
      FilledAtStep(h, k - 1);
      assert StepOk(h, k);
      MoveFillsOne(h[k - 1], h[k], MoverAt(k));
    }
  }

  lemma MoveFillsOne(prev: Record, next: Record, p: Cell)
    requires IsMove(prev, next, p) && p != Empty
    ensures CountFilled(next.squares) == CountFilled(prev.squares) + 1
  {
    PlaceAddsOne(prev.squares, next.squareNumber.value, p);
  }

  /** A game has at most nine moves, so its history has at most ten records. */
  lemma HistoryAtMostTen(h: seq<Record>)
    requires ValidHistory(h)
    ensures |h| <= 10
  {
    if |h| > 10 {
      FilledAtStep(h, 10);
      assert false;
    }
  }

  lemma PrefixIsValid(h: seq<Record>, n: nat)
    requires ValidHistory(h) && 1 <= n <= |h|
    ensures ValidHistory(h[..n])
  {
    forall k | 1 <= k < n
      ensures StepOk(h[..n], k)
    {
      assert StepOk(h, k);
    }
  }

  lemma AppendIsValid(h: seq<Record>, rec: Record)
    requires ValidHistory(h) && IsMove(h[|h| - 1], rec, MoverAt(|h|))
    ensures ValidHistory(h + [rec])
  {
    var h' := h + [rec];
    forall k | 1 <= k < |h'|
      ensures StepOk(h', k)
    {
      if k < |h| { assert StepOk(h, k); }
    }
  }

  /** `handleClick` keeps the invariant. */
  lemma HandleClickPreservesValid(s: State, i: Square)
    requires Valid(s)
    ensures Valid(HandleClick(s, i))
  {
    if Accepts(s, i) {
      var kept := s.history[..s.stepNumber + 1];
      PrefixIsValid(s.history, s.stepNumber + 1);
      var rec := Record(Current(s).squares[i := Mover(s.xIsNext)], Some(i));
      assert IsMove(kept[|kept| - 1], rec, MoverAt(|kept|));
      AppendIsValid(kept, rec);
      assert HandleClick(s, i).history == kept + [rec];
    }
  }

  /** `jumpTo` to an offered step keeps the invariant. */
  lemma JumpToPreservesValid(s: State, step: nat)
    requires Valid(s) && step < |s.history|
    ensures Valid(JumpTo(s, step))
  {
  }

  /** `changeOrder` keeps the invariant and undoes itself. */
  lemma ChangeOrderInvolution(s: State)
    ensures Valid(s) ==> Valid(ChangeOrder(s))
    ensures ChangeOrder(ChangeOrder(s)) == s
  {
  }

  /** Jumping away and back to the displayed step restores the state exactly. */
  lemma JumpBackRestores(s: State, step: nat)
    requires Valid(s)
    ensures JumpTo(JumpTo(s, step), s.stepNumber) == s
  {
  }

  /** An accepted click advances by one step and hands the turn over; the mover
      is the player whose turn the step parity names. */
  lemma AcceptedClickAdvances(s: State, i: Square)
    requires Valid(s) && Accepts(s, i)
    ensures HandleClick(s, i).stepNumber == s.stepNumber + 1
    ensures Mover(s.xIsNext) == MoverAt(s.stepNumber + 1)
    ensures Mover(HandleClick(s, i).xIsNext) != Mover(s.xIsNext)
  {
  }

  /** Once the displayed board is full, every click is ignored: a game never
      grows beyond ten records. */
  lemma FullBoardIgnoresClicks(s: State, i: Square)
    requires Valid(s) && s.stepNumber == 9
    ensures HandleClick(s, i) == s
  {
    FilledAtStep(s.history, 9);
  }

  /** Time travel then a move: everything after the jump target is discarded. */
  lemma JumpThenClickTruncates(s: State, step: nat, i: Square)
    requires Valid(s) && step < |s.history|
    requires Accepts(JumpTo(s, step), i)
    ensures var r := HandleClick(JumpTo(s, step), i);
      && |r.history| == step + 2
      && r.history[..step + 1] == s.history[..step + 1]
      && Current(r).squares == s.history[step].squares[i := MoverAt(step + 1)]
  {
  }

  // ---------------------------------------------------------------------------
  // Sequences of intents dispatched by the presentation layer

  /** What the rendered page can ask of the game. */
  datatype Intent = Click(i: Square) | Jump(step: nat) | Toggle

  /** The page only offers jumps to steps listed in the move list. */
  predicate Offered(s: State, t: Intent) {
    t.Jump? ==> t.step < |s.history|
  }

  /** One intent, applied atomically. */
  function Apply(s: State, t: Intent): (r: State)
    requires Valid(s) && Offered(s, t)
    ensures Valid(r)
    ensures r.history != s.history ==> t.Click?
    ensures r.order != s.order <==> t.Toggle?
  {
    match t
    case Click(i) => HandleClickPreservesValid(s, i); HandleClick(s, i)
    case Jump(step) => JumpTo(s, step)
    case Toggle => ChangeOrder(s)
  }

  /** Every intent of `ts` is offered by the state it reaches. */
  predicate AllOffered(s: State, ts: seq<Intent>)
    requires Valid(s)
    decreases |ts|
  {
    |ts| == 0 || (Offered(s, ts[0]) && AllOffered(Apply(s, ts[0]), ts[1..]))
  }

  /** Intents processed strictly in the order they are dispatched. */
  function Run(s: State, ts: seq<Intent>): (r: State)
    requires Valid(s) && AllOffered(s, ts)
    ensures Valid(r)
    ensures r.order == s.order <==> CountToggles(ts) % 2 == 0
    decreases |ts|
  {
    if |ts| == 0 then s else Run(Apply(s, ts[0]), ts[1..])
  }

  function CountToggles(ts: seq<Intent>): nat {
    if |ts| == 0 then 0 else (if ts[0].Toggle? then 1 else 0) + CountToggles(ts[1..])
  }

  /** The state reached from the constructor's state by clicking `ms` in order. */
  function Play(ms: seq<Square>): (r: State)
    ensures Valid(r)
    ensures r.order == Asc
  {
    if ms == [] then Initial()
    else
      var prev := Play(ms[..|ms| - 1]);
      HandleClickPreservesValid(prev, ms[|ms| - 1]);
      HandleClick(prev, ms[|ms| - 1])
  }

  /** Every click of `ms` was accepted by the state it reached. */
  predicate AllAccepted(ms: seq<Square>) {
    forall k :: 0 <= k < |ms| ==> Accepts(Play(ms[..k]), ms[k])
  }

  /** After `n` accepted clicks from the start, `n` moves are on record, the
      latest is displayed, and X moves next exactly when `n` is even. */
  lemma {:induction false} PlayCountsMoves(ms: seq<Square>)
    requires AllAccepted(ms)
    ensures Play(ms).stepNumber == |ms| && |Play(ms).history| == |ms| + 1
    ensures Play(ms).xIsNext <==> |ms| % 2 == 0
  {
    if ms != [] {
      var init := ms[..|ms| - 1];
      forall k | 0 <= k < |init|
        ensures Accepts(Play(init[..k]), init[k])
      {
        assert init[..k] == ms[..k];
        assert Accepts(Play(ms[..k]), ms[k]);
      }
      PlayCountsMoves(init);
      assert Accepts(Play(ms[..|ms| - 1]), ms[|ms| - 1]);
    }
  }

  /** The squares clicked to produce a history, in order. */
  function MovesOf(h: seq<Record>): (ms: seq<Square>)
    requires ValidHistory(h)
    ensures |ms| == |h| - 1
    ensures forall k :: 0 <= k < |ms| ==> h[k + 1].squareNumber == Some(ms[k])
  {
    if |h| == 1 then []
    else
      var last := |h| - 1;
      PrefixIsValid(h, last);
      assert StepOk(h, last);
      MovesOf(h[..last]) + [h[last].squareNumber.value]
  }

  /** Replaying the moves of a game from the start rebuilds its history, with
      the latest record displayed. */
  lemma {:induction false} PlayReplaysHistory(h: seq<Record>)
    requires ValidHistory(h)
    ensures Play(MovesOf(h)).history == h
    ensures Play(MovesOf(h)).stepNumber == |h| - 1
  {
    if |h| > 1 {
      var p := h[..|h| - 1];
      PrefixIsValid(h, |h| - 1);
      PlayReplaysHistory(p);
      var ms := MovesOf(h);
      assert ms[..|ms| - 1] == MovesOf(p);
      var prev := Play(MovesOf(p));
      var m := ms[|ms| - 1];
      assert Play(ms) == HandleClick(prev, m);
      assert StepOk(h, |h| - 1);
      assert Current(prev) == h[|h| - 2];
      assert Mover(prev.xIsNext) == MoverAt(|h| - 1);
      LatestClickAppends(prev, m);
      assert h[|h| - 1] == Record(h[|h| - 2].squares[m := MoverAt(|h| - 1)], Some(m));
      SplitLast(h);
    }
  }

  lemma SplitLast<T>(xs: seq<T>)
    requires |xs| > 0
    ensures xs[..|xs| - 1] + [xs[|xs| - 1]] == xs
  {
  }

  /** A click accepted on the latest record just appends one record. */
  lemma LatestClickAppends(s: State, i: Square)
    requires s.stepNumber == |s.history| - 1 && Accepts(s, i)
    ensures HandleClick(s, i).history == s.history + [Record(Current(s).squares[i := Mover(s.xIsNext)], Some(i))]
    ensures HandleClick(s, i).stepNumber == |s.history|
  {
    assert s.history[..s.stepNumber + 1] == s.history;
  }

  /** The invariant is exact: every valid state is reached from the constructor's
      state by clicks, one jump and, for descending order, one toggle. */
  lemma ValidIsReachable(s: State)
    requires Valid(s)
    ensures s.order == Asc ==> s == JumpTo(Play(MovesOf(s.history)), s.stepNumber)
    ensures s.order == Desc ==> s == ChangeOrder(JumpTo(Play(MovesOf(s.history)), s.stepNumber))
  {
    PlayReplaysHistory(s.history);
  }

  /** Every state the page can reach from the constructor's state is valid. */
  lemma ReachableIsValid(ts: seq<Intent>)
    requires AllOffered(Initial(), ts)
    ensures Valid(Run(Initial(), ts))
    ensures |Run(Initial(), ts).history| <= 10
  {
    HistoryAtMostTen(Run(Initial(), ts).history);
  }
}
