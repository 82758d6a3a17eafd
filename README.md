# Snake: a verified model of the body and move rules of `snake.c`

The game is a terminal snake. The snake moves one cell per arrow key; it never
moves by itself. It cannot leave the boxed window or move over its own body, and
the player cannot lose. It grows by one cell after eating a cherry, and a new
cherry is then placed on a free cell. This project models the part of `snake.c`
that holds the logic:

- the head-first linked list of body nodes;
- the move delta (`NodeMove`);
- the move validator (`checkFlag`);
- the locomotion step (`locomotion`);
- the initial body (`initialize_game`);
- cherry placement (`randCherry` and the respawn loop);
- the key dispatch of the game loop in `main`.

The project proves what these promise.

Files and modules:

- `grid.dfy` (`Grid`): the window constants (24 by 80, interior rows 1..22 and
  columns 1..78), `Cell`, `Direction`, `Key`, the one-step `Shift`, and the body
  invariants (`NoDuplicates`, `AllInInterior`, `Connected`, `ValidBody`).
- `moves.dfy` (`Moves`): `NodeMove`, and `checkFlag` as the method `CheckFlag`,
  proved equal to the predicate `Accepts`. `Advance` is the body after one run
  of `locomotion`, as a function. The lemmas here relate `Accepts` to the game
  rule `Legal` and show that an accepted step keeps the invariants.
- `body.dfy` (`SnakeList`): the class `SnakeBody`, whose field `cells` is the
  list's contents from head to tail. Its methods are `InsertAtHead`, `Length`,
  `DeleteNode` and `Locomotion`; `Length`, `DeleteNode` and `Locomotion` keep
  the source's loops. The constructor
  `Initial` mirrors `initialize_game`. `Locomotion` is proved to produce
  `Advance`.
- `cherry.dfy` (`Cherry`): `RandCherry`, and the respawn loop as the method
  `Respawn`, proved equal to the function `FirstFreeFrom` (the first sample
  that is off the body).
- `session.dfy` (`Session`): one iteration of the game loop as the function
  `GameStep`, a finite run of keys as `Run`, the session invariant `GameInv`,
  and the class `Game`. `Game.Tick` and `Game.Play` are proved against
  `GameStep` and `Run`.
- `scenarios.dfy` (`Scenarios`): concrete situations (border, self-collision,
  grow and shift, growth on the following move).

How the model reads the source:

- **Node identity.** A node is identified by its position in the list.
  `delete_node(head, node)` becomes `DeleteNode(k)`.
- **The `limit` argument.** `checkFlag`'s `limit` is replaced by a
  `Direction`. `main` passes 1 for Left, -1 for Right, -1 for Up and 1 for Down
  (snake.c:514-554). In every case the cell that `checkFlag` scans for is
  exactly `NodeMove`'s new head.
- **The neck test compares one coordinate.** At snake.c:396 and snake.c:422 the
  neck test looks only at the coordinate along the move's axis. This is
  modelled as written (`NeckBlocks`). On a connected body it is the same as
  "the new head is the neck" (`NeckBlocksIffNeck`).
- **`locomotion` exactly as written.** The model keeps its own boundary guards.
  On the Right and Down sides they are one cell looser than `checkFlag`
  (`GuardAloneAdmitsFrame`). A failed guard would still delete the tail
  (`GuardFailureShrinks`). Because `checkFlag` always runs first, neither
  case can happen (`AcceptedPassesGuard`).
- **`rand()`.** The values `rand()` returns are the sequence `draws`, used two
  per placement: row first, then column.
- **The cherry flag.** The flag is an explicit input, as in the source. `main`
  computes it before reading the key: it is 1 when the head already sits on
  the cherry. So the body grows on the accepted move *after* the head reaches
  the cherry. If the next key is not an accepted move, the growth is lost
  (`GrowthForfeited`, `GrowthOnFollowingMove`). The body does not grow on the
  move that reaches the cherry.
- **Moves onto the tail.** Moving onto the current tail is rejected, even on a
  step that would have deleted the tail (snake.c:410-413, 436-438;
  `AcceptsIffLegal`).

## Model

| member | source | states |
|---|---|---|
| Grid.ShiftAdjacent | snake.c:236-255 | the prospective head is an orthogonal neighbour of the head, never the head itself |
| Grid.ShiftOpposite | snake.c:236-255 | stepping the opposite way returns to the original cell |
| Grid.ShiftCoversNeighbours | snake.c:236-255 | a cell is adjacent to the head exactly when some arrow key moves the head onto it |
| Moves.NeckBlocks | snake.c:394-399 | the neck test on the axis coordinate (column for Left/Right, row for Up/Down); on any body it catches a move straight onto the neck |
| Moves.BorderBlocks | snake.c:400-403 | the border test on the head (column < 2 for Left, >= 78 for Right, row >= 22 for Down, <= 1 for Up); a move it blocks would leave the interior |
| Moves.Accepts | snake.c:385-448 | checkFlag's answer: neither test blocks and no segment equals the new head; an accepted move from an interior head stays inside |
| Moves.LocomotionGuard | snake.c:273-315 | locomotion's per-key guards (column > 1, column <= 78, row > 1, row <= 22); every step into the interior passes them |
| Moves.Advance | snake.c:264-334 | the body after locomotion: with the guard passed, the new head followed by a prefix of the old body, otherwise a prefix of the old body; one longer when the guard passes, one shorter when a body of two or more loses its tail (flag not 1) |
| Moves.NodeMove | snake.c:232-262 | Left gives column-1, Right column+1, Down row+1, Up row-1; any other key gives no node; the result is adjacent to the head |
| Moves.CheckFlag | snake.c:385-448 | the single pass over all segments answers exactly `Accepts`: the neck test, the border test (column < 2 for Left, >= 78 for Right, row >= 22 for Down, <= 1 for Up), and no segment equal to the new head |
| Moves.AcceptsIffLegal | snake.c:385-448 | on a valid body of length >= 2, checkFlag accepts exactly when the new head is inside rows 1..22 and columns 1..78 and on no segment, neck and tail included |
| Moves.NeckBlocksIffNeck | snake.c:394-399 | on a connected body the one-coordinate neck test holds exactly when the new head is the neck |
| Moves.BorderBlocksIffOutside | snake.c:400-403 | with the head inside, the border test fails exactly when the new head leaves the interior |
| Moves.AcceptsAvoidsBody | snake.c:410-413 | on any body, an accepted move never puts the head on a segment |
| Moves.NeckReversalRejected | snake.c:394-399 | reversing into the neck, opposite to the move that produced the head, is rejected |
| Moves.AcceptedPassesGuard | snake.c:273-315 | every move checkFlag accepts passes locomotion's own guard, so a head is always prepended |
| Moves.GuardAloneAdmitsFrame | snake.c:284-315 | the Right and Down guards of locomotion alone would let the head onto the frame |
| Moves.AdvanceAccepted | snake.c:264-334 | for an accepted move, flag 1 gives `[newHead] + body` (length +1), any other flag gives `[newHead] + body[..n-1]` (same length) |
| Moves.AdvanceVacatesTail | snake.c:321-328 | on a non-growing step the old tail is no longer occupied and every other old segment still is |
| Moves.GuardFailureShrinks | snake.c:264-334 | if locomotion's guard failed, it would still delete the tail, shrinking the body |
| Moves.AdvancePreservesValid | snake.c:264-448 | an accepted step keeps no-overlap, all cells inside, and consecutive segments adjacent |
| SnakeList.InitialBody | snake.c:351-360 | five cells on row WinHeight / 2, columns WinWidth / 2 - 4 up to WinWidth / 2, head first |
| SnakeList.InitialBodyValid | snake.c:351-360 | the initial body has five cells and satisfies every body invariant |
| SnakeList.SnakeBody.Initial | snake.c:348-360 | inserting five nodes at row 12, columns 40 down to 36, yields the head-first body (12,36),(12,37),(12,38),(12,39),(12,40) |
| SnakeList.SnakeBody.InsertAtHead | snake.c:77-89 | the new node becomes the head, the old list is unchanged behind it, the length grows by one |
| SnakeList.SnakeBody.Length | snake.c:91-102 | the count of nodes equals the list's length |
| SnakeList.SnakeBody.DeleteNode | snake.c:123-152 | removes the node at position k and keeps the order of the others; deleting the head leaves `head->next` in front; deleting the tail leaves the list minus its last cell |
| SnakeList.SnakeBody.Locomotion | snake.c:264-334 | the walk from the head produces `Advance(old body, flag, direction)` |
| Cherry.RandCherry | snake.c:222-226 | every placement has a row in 1..22 and a column in 1..78 |
| Cherry.RandCherryCoversInterior | snake.c:222-226 | every interior cell is the placement of some pair of rand() values |
| Cherry.FirstFreeFrom | snake.c:484-501 | a placement the respawn loop settles on is inside and on no segment, and uses no draws beyond those supplied |
| Cherry.FirstFreeSound | snake.c:484-501 | the settled placement is the first sampled pair off the body; every earlier pair was on it |
| Cherry.FirstFreeComplete | snake.c:484-501 | if any supplied pair lands off the body, the loop settles, at that pair or earlier |
| Cherry.Respawn | snake.c:478-501 | the nested loop (draw, rescan the whole body, redraw on a hit) returns exactly `FirstFreeFrom(body, draws, 0)` |
| Session.Dispatch | snake.c:508-566 | the key dispatch (an accepted arrow runs locomotion with the flag): 'q' and only 'q' finishes the loop, no key stalls it, and the cherry and draws are untouched |
| Session.GameStep | snake.c:472-562 | one loop iteration never shortens the body |
| Session.GameStepLength | snake.c:474-562 | the body grows by exactly one cell exactly when the head was on the cherry before the key was read and the key is an accepted arrow; otherwise the length is unchanged |
| Session.GameStepMoves | snake.c:508-562 | the head moves one step exactly on an accepted arrow key; any other key leaves the body unchanged |
| Session.GameStepPreservesInv | snake.c:472-562 | every iteration keeps the body invariants, the cherry inside, and the cherry on no segment behind the head |
| Session.GrowthForfeited | snake.c:474-477 | after the head reaches the cherry, a key that is not an accepted move forfeits the growth |
| Session.Run | snake.c:472-577 | the game loop over a finite key sequence, stopping at 'q' or a stall; the body at the end is never shorter than at the start |
| Session.RunPreservesInv | snake.c:472-577 | every state the game loop reaches keeps the invariant, and the body is never shorter than at the start |
| Session.InitialCherryAsWritten | snake.c:469 | the first cherry, drawn once, lies in the interior |
| Session.InitialCherryMayOverlap | snake.c:469-470 | with rand() values 11 and 36 the first cherry is (12,37), the body's second segment, which breaks the session invariant |
| Session.StartState | snake.c:463-470 | the corrected start: initial body plus a cherry placed by the respawn loop, on no segment; it exists exactly when the draws yield a free cell |
| Session.Game.constructor | snake.c:462-470 | a new session is in the corrected start state and satisfies the invariant |
| Session.Game.Tick | snake.c:474-562 | cherry check and respawn, key dispatch, checkFlag and locomotion update the session exactly as `GameStep`, keeping the invariant |
| Session.Game.Play | snake.c:472-566 | the loop over the keys, stopping at 'q' or a stall, ends in the state `Run` gives |
| Scenarios.LeftBorderRejected | snake.c:400-403 | a head in column 1 cannot move Left |
| Scenarios.SelfCollisionRejected | snake.c:410-413 | a move onto a segment behind the neck is rejected |
| Scenarios.RowBodyRight | snake.c:264-334 | Right from (12,40)..(12,36): flag 1 grows to six cells, flag 0 shifts to (12,41)..(12,37) |
| Scenarios.GrowthOnFollowingMove | snake.c:474-477 | moving onto the cherry does not grow the body; the next accepted move does, after a new cherry is placed |

## Left out

- Keys other than the arrows, 'q' and 'r' are the single value `Other`; the model does not distinguish them, as the game loop ignores them all (the restart key 'r' is listed separately below).
- Curses I/O: window setup, `check`, `box`, `mvprintw`, `mvaddch`, `refresh`, `move`, `getch`, `endwin`. These only draw and read keys. Keys arrive as the `Key` values given to `Tick` and `Play`.
- Memory management: `malloc`, `free`, `free_node`, `free_list`, `cleanup`, and the node leaked when `NodeMove` returns NULL. The list is a sequence of values.
- The restart key 'r' (snake.c:567-576): it frees the list and then builds a new one in a shadowing local, so the game goes on using the freed list. There is no defined behaviour to model, and `Key` has no restart case.
- The `|| KEY_UP` at snake.c:418 is always true. Only Up and Down reach that branch, so they are modelled as two distinct directions.
- `checkFlag` and `locomotion` called with a key that is not an arrow: `main` never does that, so both take a `Direction`.
- `rand()` itself: its values are the parameter `draws`. Because draws are finite, the respawn loop can run out of them. `Tick` then returns `Stalled` and leaves the state unchanged; the source would keep sampling. Termination of the source's loop is only probabilistic.
- Session.Game.constructor: requires that the supplied draws yield a free cell, which is the condition under which the respawn loop (snake.c:484-501), used here for the first cherry too, ends.
- Integer width: coordinates stay within 0..80, so C `int` overflow cannot occur, and `rand()`'s values are non-negative, so C's `%` agrees with Dafny's.

## Findings

| source | as written | input that shows it | evidently intended | confidence | as-written member | corrected member |
|---|---|---|---|---|---|---|
| snake.c:469 | the first cherry is drawn once and never checked against the body | rand() values 11 then 36 place it at (12,37), on the second segment | the first cherry is placed off the body, like every later one (snake.c:20-23) | medium, not executed | Session.InitialCherryMayOverlap | Session.StartState |
