/** The move delta (NodeMove), the move validator (checkFlag) and the effect of one
    locomotion step on the body, as functions of the body's cells. */
module Moves {
  import opened Grid

  datatype Option<T> = None | Some(value: T)

  /** NodeMove: the prospective head one step from `head` in the key's direction;
      a key that is not an arrow gives no cell. */
  function NodeMove(head: Cell, key: Key): (r: Option<Cell>)
    ensures r.Some? <==> key.Arrow?
    ensures r.Some? ==> Adjacent(head, r.value)
    ensures key == Arrow(Left) ==> r == Some(Cell(head.row, head.col - 1))
    ensures key == Arrow(Right) ==> r == Some(Cell(head.row, head.col + 1))
    ensures key == Arrow(Down) ==> r == Some(Cell(head.row + 1, head.col))
    ensures key == Arrow(Up) ==> r == Some(Cell(head.row - 1, head.col))
  {
    match key
    case Arrow(d) => Some(Shift(head, d))
    case _ => None
  }

  /** The neck test of checkFlag: it compares only the coordinate along the axis of
      the move (the column for Left/Right, the row for Up/Down). */
  predicate NeckBlocks(body: seq<Cell>, d: Direction)
    requires |body| >= 2
    ensures body[1] == Shift(body[0], d) ==> NeckBlocks(body, d)
  {
    var target := Shift(body[0], d);
    if d == Left || d == Right then body[1].col == target.col else body[1].row == target.row
  }

  /** The border test of checkFlag, on the current head. */
  predicate BorderBlocks(head: Cell, d: Direction)
    ensures BorderBlocks(head, d) ==> !InInterior(Shift(head, d))
  {
    match d
    case Left => head.col < 2
    case Right => head.col >= MaxCol
    case Down => head.row >= MaxRow
    case Up => head.row <= 1
  }

  /** What checkFlag answers, written as a predicate. */
  predicate Accepts(body: seq<Cell>, d: Direction)
    requires |body| >= 2
    ensures Accepts(body, d) && InInterior(body[0]) ==> InInterior(Shift(body[0], d))
  {
    !NeckBlocks(body, d) && !BorderBlocks(body[0], d) && Shift(body[0], d) !in body
  }

  /** The rule the game states: the new head stays inside and lands on no segment. */
  predicate Legal(body: seq<Cell>, d: Direction)
    requires |body| >= 1
  {
    InInterior(Shift(body[0], d)) && Shift(body[0], d) !in body
  }

  /** checkFlag: one pass over all `count` segments, remembering the head's row and
      column from the first iteration. `count` is the list length the caller passes. */
  method CheckFlag(body: seq<Cell>, count: nat, d: Direction) returns (ok: bool)
    requires |body| >= 2 && count == |body|
    ensures ok == Accepts(body, d)
  {
    var row, col := 0, 0;  // set from the head on the first iteration
    for i := 0 to count
      invariant i > 0 ==> Cell(row, col) == body[0]
      invariant i > 0 ==> !NeckBlocks(body, d) && !BorderBlocks(body[0], d)
      invariant forall j :: 0 <= j < i ==> body[j] != Shift(body[0], d)
    {
      var segment := body[i];
      if i == 0 {
        if NeckBlocks(body, d) {
          return false;
        } else if BorderBlocks(segment, d) {
          return false;
        }
        row, col := segment.row, segment.col;
      }
      if Shift(Cell(row, col), d) == segment {
        return false;
      }
    }
    return true;
  }

  /** The boundary guards of locomotion, one per arrow key. */
  predicate LocomotionGuard(head: Cell, d: Direction)
    ensures InInterior(Shift(head, d)) ==> LocomotionGuard(head, d)
  {
    match d
    case Left => head.col > 1
    case Right => head.col <= MaxCol
    case Up => head.row > 1
    case Down => head.row <= MaxRow
  }

  /** The body after locomotion with cherry flag `cherry`: the new head is prepended
      when the guard passes, and the tail is deleted unless the flag is 1. The walk
      skips the node that was the head, so a one-cell body never loses its tail. */
  function Advance(body: seq<Cell>, cherry: int, d: Direction): (r: seq<Cell>)
    requires |body| >= 1
    ensures LocomotionGuard(body[0], d) ==> |r| >= 1 && r[0] == Shift(body[0], d) && r[1..] <= body
    ensures !LocomotionGuard(body[0], d) ==> r <= body
    ensures |r| == |body| + (if LocomotionGuard(body[0], d) then 1 else 0)
                          - (if |body| >= 2 && cherry != 1 then 1 else 0)
  {
    var moved := if LocomotionGuard(body[0], d) then [Shift(body[0], d)] + body else body;
    if |body| >= 2 && cherry != 1 then moved[..|moved| - 1] else moved
  }

  /** Every move checkFlag accepts also passes locomotion's own guard, so the step
      always prepends a head. */
  lemma AcceptedPassesGuard(body: seq<Cell>, d: Direction)
    requires |body| >= 2 && Accepts(body, d)
    ensures LocomotionGuard(body[0], d)
  {
  }

  /** The guards alone are one cell too loose on the Right and Down sides. */
  lemma GuardAloneAdmitsFrame()
    ensures LocomotionGuard(Cell(5, MaxCol), Right) && !InInterior(Shift(Cell(5, MaxCol), Right))
    ensures LocomotionGuard(Cell(MaxRow, 5), Down) && !InInterior(Shift(Cell(MaxRow, 5), Down))
  {
  }

  /** The neck test agrees with "the new head is the neck" on a connected body. */
  lemma {:induction false} NeckBlocksIffNeck(body: seq<Cell>, d: Direction)
    requires |body| >= 2 && Adjacent(body[0], body[1])
    ensures NeckBlocks(body, d) <==> body[1] == Shift(body[0], d)
  {
    var h, n := body[0], body[1];
    if NeckBlocks(body, d) {
      match d
      case Left =>
        assert n.col == h.col - 1;
        assert n.row == h.row;
      case Right =>
        assert n.col == h.col + 1;
        assert n.row == h.row;
      case Up =>
        assert n.row == h.row - 1;
        assert n.col == h.col;
      case Down =>
        assert n.row == h.row + 1;
        assert n.col == h.col;
    }
  }

  /** With the head inside, the border test fails exactly when the new head leaves the interior. */
  lemma BorderBlocksIffOutside(head: Cell, d: Direction)
    requires InInterior(head)
    ensures BorderBlocks(head, d) <==> !InInterior(Shift(head, d))
  {
  }

  /** On a valid body, checkFlag rejects exactly the moves that leave the interior
      or land on a segment (neck and tail included). */
  lemma {:induction false} AcceptsIffLegal(body: seq<Cell>, d: Direction)
    requires ValidBody(body) && |body| >= 2
    ensures Accepts(body, d) <==> Legal(body, d)
  {
    NeckBlocksIffNeck(body, d);
    BorderBlocksIffOutside(body[0], d);
    assert body[1] in body;
  }

  /** On any body, checkFlag never lets the head onto a segment. */
  lemma AcceptsAvoidsBody(body: seq<Cell>, d: Direction)
    requires |body| >= 2 && Accepts(body, d)
    ensures forall i :: 0 <= i < |body| ==> body[i] != Shift(body[0], d)
  {
  }

  /** Reversing into the neck is always rejected. */
  lemma {:induction false} NeckReversalRejected(body: seq<Cell>, d: Direction)
    requires |body| >= 2 && body[0] == Shift(body[1], d)
    ensures !Accepts(body, Opposite(d))
  {
    ShiftOpposite(body[1], d);
    assert body[1] in body;
  }

  /** The two shapes of an accepted step: grow by the new head when the flag is 1,
      otherwise shift (new head in front, old tail gone). */
  lemma {:induction false} AdvanceAccepted(body: seq<Cell>, cherry: int, d: Direction)
    requires |body| >= 2 && Accepts(body, d)
    ensures cherry == 1 ==> Advance(body, cherry, d) == [Shift(body[0], d)] + body
    ensures cherry != 1 ==> Advance(body, cherry, d) == [Shift(body[0], d)] + body[..|body| - 1]
    ensures |Advance(body, cherry, d)| == |body| + (if cherry == 1 then 1 else 0)
  {
    AcceptedPassesGuard(body, d);
    var moved := [Shift(body[0], d)] + body;
    assert moved[..|moved| - 1] == [Shift(body[0], d)] + body[..|body| - 1];
  }

  /** On a step that does not grow, the vacated cell is the old tail: it is no longer
      occupied, and every other old segment still is. */
  lemma {:induction false} AdvanceVacatesTail(body: seq<Cell>, cherry: int, d: Direction)
    requires ValidBody(body) && |body| >= 2 && Accepts(body, d) && cherry != 1
    ensures body[|body| - 1] !in Advance(body, cherry, d)
    ensures forall i :: 0 <= i < |body| - 1 ==> body[i] in Advance(body, cherry, d)
  {
    AdvanceAccepted(body, cherry, d);
    var r := Advance(body, cherry, d);
    var tail := body[|body| - 1];
    forall k | 0 <= k < |r|
      ensures r[k] != tail
    {
      if k > 0 {
        assert r[k] == body[k - 1];
      }
    }
    forall i | 0 <= i < |body| - 1
      ensures body[i] in r
    {
      assert r[i + 1] == body[i];
    }
  }

  /** Without the validator a failed guard still deletes the tail: the body shrinks. */
  lemma GuardFailureShrinks(body: seq<Cell>, cherry: int, d: Direction)
    requires |body| >= 2 && !LocomotionGuard(body[0], d) && cherry != 1
    ensures Advance(body, cherry, d) == body[..|body| - 1]
  {
  }

  /** An accepted step keeps every body invariant: no overlap, inside the interior,
      consecutive segments adjacent. */
  lemma {:induction false} AdvancePreservesValid(body: seq<Cell>, cherry: int, d: Direction)
    requires ValidBody(body) && |body| >= 2 && Accepts(body, d)
    ensures ValidBody(Advance(body, cherry, d))
  {
    AcceptsIffLegal(body, d);
    AdvanceAccepted(body, cherry, d);
    var h := Shift(body[0], d);
    var rest := if cherry == 1 then body else body[..|body| - 1];
    var r := Advance(body, cherry, d);
    assert r == [h] + rest;
    assert forall k :: 0 <= k < |rest| ==> rest[k] == body[k];
    assert forall k :: 1 <= k < |r| ==> r[k] == rest[k - 1];
    forall i, j | 0 <= i < j < |r|
      ensures r[i] != r[j]
    {
      if i == 0 {
        assert r[j] == body[j - 1];
      } else {
        assert r[i] == body[i - 1] && r[j] == body[j - 1];
      }
    }
    forall i | 0 <= i < |r|
      ensures InInterior(r[i])
    {
      if i > 0 {
        assert r[i] == body[i - 1];
      }
    }
    forall i | 0 <= i < |r| - 1
      ensures Adjacent(r[i], r[i + 1])
    {
      if i == 0 {
        ShiftAdjacent(body[0], d);
        assert r[1] == body[0];
      } else {
        assert r[i] == body[i - 1] && r[i + 1] == body[i];
      }
    }
  }
}
