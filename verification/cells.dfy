/** The contents of the 3x3 board: cells, boards and board indices. */
module Cells {

  /** One square of the board. `Empty` is the `null` of `Array(9).fill(null)`;
      `X` and `O` are the strings `'X'` and `'O'` written by a move. */
  datatype Cell = Empty | X | O

  /** A board is the 9-element `squares` array, row-major (index = row * 3 + column). */
  type Board = s: seq<Cell> | |s| == 9
    witness [Empty, Empty, Empty, Empty, Empty, Empty, Empty, Empty, Empty]

  /** An index the board can dispatch a click for. */
  type Square = i: int | 0 <= i < 9

  /** The board every game starts from. */
  const EmptyBoard: Board := [Empty, Empty, Empty, Empty, Empty, Empty, Empty, Empty, Empty]

  /** Number of occupied cells. */
  function CountFilled(cs: seq<Cell>): (n: nat)
    ensures n <= |cs|
    ensures n == |cs| <==> forall j :: 0 <= j < |cs| ==> cs[j] != Empty
    ensures n == 0 <==> forall j :: 0 <= j < |cs| ==> cs[j] == Empty
  {
    if cs == [] then 0
    else
      assert forall j :: 1 <= j < |cs| ==> cs[1..][j - 1] == cs[j];
      (if cs[0] != Empty then 1 else 0) + CountFilled(cs[1..])
  }

  /** Writing a symbol into an empty cell adds exactly one occupied cell. */
  lemma {:induction false} PlaceAddsOne(cs: seq<Cell>, i: nat, p: Cell)
    requires i < |cs| && cs[i] == Empty && p != Empty
    ensures CountFilled(cs[i := p]) == CountFilled(cs) + 1
  {
    if i == 0 {
      assert cs[i := p][1..] == cs[1..];
    } else {
      assert cs[i := p][1..] == cs[1..][i - 1 := p];
      PlaceAddsOne(cs[1..], i - 1, p);
    }
  }
}
