/** Cherry placement: randCherry and the respawn loop of the main game loop.
    The values rand() returns are supplied as a finite sequence `draws`, two per
    placement: the first gives the row, the second the column. */
module Cherry {
  import opened Grid
  import opened Moves

  /** randCherry: row r1 % (WinHeight - 2) + 1, column r2 % (WinWidth - 2) + 1. */
  function RandCherry(r1: nat, r2: nat): (c: Cell)
    ensures InInterior(c)
  {
    Cell(r1 % (WinHeight - 2) + 1, r2 % (WinWidth - 2) + 1)
  }

  /** Every interior cell is some placement. */
  lemma {:induction false} RandCherryCoversInterior(c: Cell)
    requires InInterior(c)
    ensures RandCherry(c.row - 1, c.col - 1) == c
  {
    var r1: nat, r2: nat := c.row - 1, c.col - 1;
    assert r1 < WinHeight - 2 && r2 < WinWidth - 2;
    assert r1 % (WinHeight - 2) == r1;
    assert r2 % (WinWidth - 2) == r2;
  }

  /** A cherry that was placed, and how many draws that took in total. */
  datatype Spawn = Spawn(cell: Cell, used: nat)

  /** The placement the respawn loop settles on when sampling starts at draws[k]:
      the first pair from k on whose cell is on no segment; None if the draws run out. */
  function FirstFreeFrom(body: seq<Cell>, draws: seq<nat>, k: nat): (r: Option<Spawn>)
    ensures r.Some? ==> InInterior(r.value.cell) && r.value.cell !in body
    ensures r.Some? ==> k + 2 <= r.value.used <= |draws|
    decreases |draws| - k
  {
    if k + 2 > |draws| then None
    else
      var c := RandCherry(draws[k], draws[k + 1]);
      if c !in body then Some(Spawn(c, k + 2)) else FirstFreeFrom(body, draws, k + 2)
  }

  /** A placement found is the pair of draws just before `used`, and every earlier
      pair from k landed on the body: the loop stops at the first free sample. */
  lemma {:induction false} FirstFreeSound(body: seq<Cell>, draws: seq<nat>, k: nat)
    requires FirstFreeFrom(body, draws, k).Some?
    ensures var sp := FirstFreeFrom(body, draws, k).value;
      (sp.used - k) % 2 == 0
      && sp.cell == RandCherry(draws[sp.used - 2], draws[sp.used - 1])
      && forall j :: k <= j < sp.used - 2 && (j - k) % 2 == 0 ==> RandCherry(draws[j], draws[j + 1]) in body
    decreases |draws| - k
  {
    var c := RandCherry(draws[k], draws[k + 1]);
    if c in body {
      FirstFreeSound(body, draws, k + 2);
    }
  }

  /** Completeness: if some pair from k on lands off the body, a placement is found. */
  lemma {:induction false} FirstFreeComplete(body: seq<Cell>, draws: seq<nat>, k: nat, j: nat)
    requires k <= j && j + 2 <= |draws| && (j - k) % 2 == 0
    requires RandCherry(draws[j], draws[j + 1]) !in body
    ensures FirstFreeFrom(body, draws, k).Some?
    ensures FirstFreeFrom(body, draws, k).value.used <= j + 2
    decreases j - k
  {
    if j > k && RandCherry(draws[k], draws[k + 1]) in body {
      FirstFreeComplete(body, draws, k + 2, j);
    }
  }

  /** The respawn loop of main: draw a cherry, then rescan the whole body and redraw
      whenever the cherry is on a segment, until a scan reaches the end of the list.
      Returns None when the draws run out first. */
  method Respawn(body: seq<Cell>, draws: seq<nat>) returns (r: Option<Spawn>)
    requires |body| >= 1
    ensures r == FirstFreeFrom(body, draws, 0)
  {
    if |draws| < 2 {
      return None;
    }
    var cherry := RandCherry(draws[0], draws[1]);
    var k := 2;
    var endflag := false;
    while !endflag
      invariant 2 <= k <= |draws|
      invariant cherry == RandCherry(draws[k - 2], draws[k - 1])
      invariant FirstFreeFrom(body, draws, 0) == FirstFreeFrom(body, draws, k - 2)
      invariant endflag ==> cherry !in body
      decreases |draws| - k, if endflag then 0 else 1
    {
      var p := 0;  // position of `ptr` in the rescan
      while p < |body|
        invariant 0 <= p <= |body|
        invariant forall q :: 0 <= q < p ==> body[q] != cherry
        invariant endflag <==> p == |body|
      {
        if cherry == body[p] {
          if k + 2 > |draws| {
            return None;
          }
          cherry := RandCherry(draws[k], draws[k + 1]);
          k := k + 2;
          break;
        }
        p := p + 1;
        if p == |body| {
          endflag := true;
        }
      }
    }
    return Some(Spawn(cherry, k));
  }
}
