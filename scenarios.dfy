/** Concrete situations of the game, checked against the model. */
module Scenarios {
  import opened Grid
  import opened Moves
  import opened Cherry
  import opened Session

  /** A head in the leftmost interior column cannot move Left. */
  lemma LeftBorderRejected(body: seq<Cell>)
    requires |body| >= 2 && body[0].col == 1
    ensures !Accepts(body, Left)
  {
  }

  /** A move onto a segment further back than the neck is rejected. */
  lemma {:induction false} SelfCollisionRejected(body: seq<Cell>, d: Direction, k: nat)
    requires 2 <= k < |body| && Shift(body[0], d) == body[k]
    ensures !Accepts(body, d)
  {
    assert body[k] in body;
  }

  /** A body heading Right along row 12. */
  function RowBody(): seq<Cell> {
    [Cell(12, 40), Cell(12, 39), Cell(12, 38), Cell(12, 37), Cell(12, 36)]
  }

  /** Moving Right from RowBody: with the flag set the body grows by the new head,
      otherwise it shifts and the cell (12, 36) is vacated. */
  lemma {:induction false} RowBodyRight()
    ensures Accepts(RowBody(), Right)
    ensures Advance(RowBody(), 1, Right) == [Cell(12, 41)] + RowBody()
    ensures Advance(RowBody(), 0, Right) == [Cell(12, 41), Cell(12, 40), Cell(12, 39), Cell(12, 38), Cell(12, 37)]
  {
    assert Cell(12, 41) !in RowBody();
    AdvanceAccepted(RowBody(), 1, Right);
    AdvanceAccepted(RowBody(), 0, Right);
  }

  /** Reaching the cherry does not grow the body on that move; the next accepted
      move does, after a new cherry (here at (5, 5)) has been placed. */
  lemma {:induction false} GrowthOnFollowingMove()
    ensures var s := State(RowBody(), Cell(12, 41), [4, 4]);
      var t := GameStep(s, Arrow(Right)).0;
      t.body == [Cell(12, 41), Cell(12, 40), Cell(12, 39), Cell(12, 38), Cell(12, 37)]
      && t.cherry == t.body[0]
      && GameStep(t, Arrow(Up)).0.body == [Cell(11, 41)] + t.body
      && GameStep(t, Arrow(Up)).0.cherry == Cell(5, 5)
  {
    var s := State(RowBody(), Cell(12, 41), [4, 4]);
    RowBodyRight();
    var t := GameStep(s, Arrow(Right)).0;
    assert t.body == Advance(RowBody(), 0, Right);
    assert RandCherry(4, 4) == Cell(5, 5);
    assert Cell(5, 5) !in t.body;
    assert FirstFreeFrom(t.body, [4, 4], 0) == Some(Spawn(Cell(5, 5), 2));
    assert Cell(11, 41) !in t.body;
    assert Accepts(t.body, Up);
    AdvanceAccepted(t.body, 1, Up);
  }
}
