/** The snake's body: the head-first linked list of nodes, held as the sequence of
    the nodes' cells. A node is identified by its position in the list. */
module SnakeList {
  import opened Grid
  import opened Moves

  /** The body that initialize_game builds: five cells on the middle row, head first. */
  function InitialBody(): (r: seq<Cell>)
    ensures |r| == 5
    ensures forall i :: 0 <= i < |r| ==> r[i] == Cell(WinHeight / 2, WinWidth / 2 - 4 + i)
  {
    [Cell(12, 36), Cell(12, 37), Cell(12, 38), Cell(12, 39), Cell(12, 40)]
  }

  lemma InitialBodyValid()
    ensures ValidBody(InitialBody()) && |InitialBody()| == 5
  {
    var b := InitialBody();
    forall i | 0 <= i < |b| - 1
      ensures Adjacent(b[i], b[i + 1])
    {
    }
  }

  class SnakeBody {
    /** The cells of the nodes, from the head to the tail. */
    var cells: seq<Cell>

    /** initialize_game: five nodes at row WinHeight / 2, columns WinWidth / 2 - i,
        each inserted at the head, so the last one inserted leads. */
    constructor Initial()
      ensures cells == InitialBody()
    {
      cells := [];
      new;
      for i := 0 to 5
        invariant |cells| == i
        invariant forall j :: 0 <= j < i ==> cells[j] == Cell(WinHeight / 2, WinWidth / 2 - i + 1 + j)
      {
        InsertAtHead(Cell(WinHeight / 2, WinWidth / 2 - i));
      }
    }

    /** insert_node_at_head: the new node leads, the old list is unchanged behind it. */
    method InsertAtHead(c: Cell)
      modifies this
      ensures cells == [c] + old(cells)
      ensures |cells| == |old(cells)| + 1 && cells[0] == c && cells[1..] == old(cells)
    {
      cells := [c] + cells;
    }

    /** get_list_length: walk the list to its end, counting nodes. */
    method Length() returns (count: nat)
      ensures count == |cells|
    {
      count := 0;
      while count < |cells|
        invariant count <= |cells|
      {
        count := count + 1;
      }
    }

    /** delete_node: unlink the node at position k. Deleting the head leaves its
        successor at the front; otherwise the predecessor is found by walking. */
    method DeleteNode(k: nat)
      requires k < |cells|
      modifies this
      ensures cells == old(cells[..k] + cells[k + 1..])
      ensures |cells| == |old(cells)| - 1
      ensures k == 0 ==> cells == old(cells)[1..]
      ensures k == |old(cells)| - 1 ==> cells == old(cells)[..k]
    {
      if k == 0 {
        cells := cells[1..];
        return;
      }
      var p := 0;
      while p < |cells|
        invariant p < k
        decreases |cells| - p
      {
        if p + 1 == k {
          cells := cells[..k] + cells[k + 1..];
          break;
        }
        p := p + 1;
      }
    }

    /** locomotion: walk from the head; at the head apply the key's guard and, if it
        passes, insert the NodeMove cell in front; at the last node delete it unless
        the cherry flag is 1. */
    method Locomotion(cherry: int, d: Direction)
      requires |cells| >= 1
      modifies this
      ensures cells == Advance(old(cells), cherry, d)
    {
      ghost var body := cells;
      ghost var moved := if LocomotionGuard(body[0], d) then [Shift(body[0], d)] + body else body;
      ghost var offset := |moved| - |body|;
      var p := 0;  // position of the node `ptr` points at
      while p < |cells|
        invariant p == 0 ==> cells == body
        invariant p > 0 ==> cells == moved && offset + 1 <= p <= |moved|
        invariant p > 0 && |body| >= 2 && cherry != 1 ==> p <= |moved| - 1
        decreases |cells| - p
      {
        if p == 0 {
          if LocomotionGuard(cells[0], d) {
            var node := NodeMove(cells[0], Arrow(d));
            InsertAtHead(node.value);
            p := p + 1;  // the old head now sits one place further back
          }
        } else if p == |cells| - 1 && cherry != 1 {
          DeleteNode(p);
          break;
        }
        p := p + 1;
      }
    }
  }
}
