/** The game loop of main: one iteration checks whether the head sits on the cherry
    (if so sets the cherry flag and respawns the cherry), reads a key and, for an
    arrow key that checkFlag accepts, runs locomotion with that flag. */
module Session {
  import opened Grid
  import opened Moves
  import opened SnakeList
  import opened Cherry

  /** Running: the loop goes on; Finished: 'q' was read; Stalled: the respawn loop
      used up the supplied draws (where the source would keep sampling). */
  datatype Outcome = Running | Finished | Stalled

  /** The session state: body, cherry, and the rand() values still to come. */
  datatype State = State(body: seq<Cell>, cherry: Cell, draws: seq<nat>)

  /** The state every session reachable from StartState keeps: a valid body of at
      least the initial length, the cherry inside and on no segment behind the head. */
  predicate GameInv(s: State) {
    ValidBody(s.body) && |s.body| >= |InitialBody()| && InInterior(s.cherry) && s.cherry !in s.body[1..]
  }

  /** The key dispatch of main, with the cherry flag computed before the key was read. */
  function Dispatch(s: State, flag: int, key: Key): (r: (State, Outcome))
    requires |s.body| >= 2
    ensures r.0.cherry == s.cherry && r.0.draws == s.draws
    ensures r.1 == Finished <==> key == Quit
    ensures r.1 != Stalled
  {
    match key
    case Arrow(d) =>
      if Accepts(s.body, d) then (s.(body := Advance(s.body, flag, d)), Running) else (s, Running)
    case Quit => (s, Finished)
    case Other => (s, Running)
  }

  /** One iteration of the game loop. */
  function GameStep(s: State, key: Key): (r: (State, Outcome))
    requires |s.body| >= 2
    ensures |r.0.body| >= |s.body|
  {
    if s.body[0] == s.cherry then
      match FirstFreeFrom(s.body, s.draws, 0)
      case None => (s, Stalled)
      case Some(sp) => Dispatch(State(s.body, sp.cell, s.draws[sp.used..]), 1, key)
    else
      Dispatch(s, 0, key)
  }

  /** The step grows the body: the head was already on the cherry, a new cherry was
      placed, and the key is an arrow that checkFlag accepts. */
  predicate Grows(s: State, key: Key)
    requires |s.body| >= 2
  {
    s.body[0] == s.cherry && FirstFreeFrom(s.body, s.draws, 0).Some?
    && key.Arrow? && Accepts(s.body, key.dir)
  }

  /** The body never shrinks, and grows by exactly one cell exactly on a growing step. */
  lemma {:induction false} GameStepLength(s: State, key: Key)
    requires |s.body| >= 2
    ensures |GameStep(s, key).0.body| == |s.body| + (if Grows(s, key) then 1 else 0)
  {
    var flag := if s.body[0] == s.cherry then 1 else 0;
    if key.Arrow? && Accepts(s.body, key.dir) {
      AdvanceAccepted(s.body, flag, key.dir);
    }
  }

  /** The head moves exactly on an accepted arrow key (and the loop did not stall). */
  lemma {:induction false} GameStepMoves(s: State, key: Key)
    requires |s.body| >= 2
    requires s.body[0] == s.cherry ==> FirstFreeFrom(s.body, s.draws, 0).Some?
    ensures key.Arrow? && Accepts(s.body, key.dir) ==> GameStep(s, key).0.body[0] == Shift(s.body[0], key.dir)
    ensures !(key.Arrow? && Accepts(s.body, key.dir)) ==> GameStep(s, key).0.body == s.body
  {
    var flag := if s.body[0] == s.cherry then 1 else 0;
    if key.Arrow? && Accepts(s.body, key.dir) {
      AdvanceAccepted(s.body, flag, key.dir);
    }
  }

  /** Every step keeps the session invariant. */
  lemma {:induction false} GameStepPreservesInv(s: State, key: Key)
    requires GameInv(s)
    ensures GameInv(GameStep(s, key).0)
  {
    var t := s;
    var flag := 0;
    if s.body[0] == s.cherry {
      match FirstFreeFrom(s.body, s.draws, 0)
      case None =>
        return;
      case Some(sp) =>
        t := State(s.body, sp.cell, s.draws[sp.used..]);
        flag := 1;
    } else {
      assert s.cherry !in s.body;
    }
    assert t.cherry !in t.body[1..] && InInterior(t.cherry);
    assert GameStep(s, key) == Dispatch(t, flag, key);
    if key.Arrow? && Accepts(t.body, key.dir) {
      var d := key.dir;
      AdvancePreservesValid(t.body, flag, d);
      AdvanceAccepted(t.body, flag, d);
      var nb := Advance(t.body, flag, d);
      if flag == 1 {
        assert t.cherry !in t.body;
        assert nb[1..] == t.body;
      } else {
        assert s.cherry !in s.body;
        assert nb[1..] == t.body[..|t.body| - 1];
        assert forall c :: c in nb[1..] ==> c in t.body;
      }
    }
  }

  /** Once the head reached the cherry, a key that is not an accepted move forfeits
      the growth: the cherry is placed off the body, so the next step's flag is 0. */
  lemma {:induction false} GrowthForfeited(s: State, key: Key, next: Key)
    requires GameInv(s) && s.body[0] == s.cherry && FirstFreeFrom(s.body, s.draws, 0).Some?
    requires !(key.Arrow? && Accepts(s.body, key.dir))
    ensures GameStep(s, key).0.body == s.body
    ensures !Grows(GameStep(s, key).0, next)
  {
    var t := GameStep(s, key).0;
    assert t.body == s.body;
    assert t.cherry !in t.body;
  }

  /** The game loop over a finite sequence of keys, stopping at 'q' or a stall. */
  function Run(s: State, keys: seq<Key>): (r: (State, Outcome))
    requires |s.body| >= 2
    ensures |r.0.body| >= |s.body|
    ensures r.1 != Running ==> keys != []
    decreases |keys|
  {
    if keys == [] then (s, Running)
    else
      var (t, o) := GameStep(s, keys[0]);
      if o != Running then (t, o) else Run(t, keys[1..])
  }

  /** Every state the loop reaches keeps the invariant and is at least as long. */
  lemma {:induction false} RunPreservesInv(s: State, keys: seq<Key>)
    requires GameInv(s)
    ensures GameInv(Run(s, keys).0) && |Run(s, keys).0.body| >= |s.body|
    decreases |keys|
  {
    if keys != [] {
      GameStepPreservesInv(s, keys[0]);
      var (t, o) := GameStep(s, keys[0]);
      if o == Running {
        RunPreservesInv(t, keys[1..]);
      }
    }
  }

  /** The first cherry as the source places it (snake.c:469): one randCherry, not
      checked against the body. */
  function InitialCherryAsWritten(draws: seq<nat>): (c: Cell)
    requires |draws| >= 2
    ensures InInterior(c)
  {
    RandCherry(draws[0], draws[1])
  }

  /** The as-written first cherry can land on the body behind the head. */
  lemma InitialCherryMayOverlap()
    ensures InitialCherryAsWritten([11, 36]) == InitialBody()[1]
    ensures !GameInv(State(InitialBody(), InitialCherryAsWritten([11, 36]), []))
  {
    assert InitialBody()[1..][0] == Cell(12, 37);
  }

  /** The start of a session with the first cherry placed by the respawn loop, so that
      it is on no segment; None if the draws run out first. */
  function StartState(draws: seq<nat>): (r: Option<State>)
    ensures r.Some? <==> FirstFreeFrom(InitialBody(), draws, 0).Some?
    ensures r.Some? ==> GameInv(r.value) && r.value.body == InitialBody()
    ensures r.Some? ==> r.value.cherry !in r.value.body
  {
    InitialBodyValid();
    match FirstFreeFrom(InitialBody(), draws, 0)
    case None => None
    case Some(sp) => Some(State(InitialBody(), sp.cell, draws[sp.used..]))
  }

  /** The session: the body list, the cherry point and the rand() stream. */
  class Game {
    var snake: SnakeBody
    var cherry: Cell
    var draws: seq<nat>

    ghost function Current(): State
      reads this, snake
    {
      State(snake.cells, cherry, draws)
    }

    ghost predicate Valid()
      reads this, snake
    {
      GameInv(Current())
    }

    /** initialize_game, then the first cherry by the respawn loop. */
    constructor (randoms: seq<nat>)
      requires StartState(randoms).Some?
      ensures Valid() && fresh(snake)
      ensures Current() == StartState(randoms).value
    {
      var body := new SnakeBody.Initial();
      var spawn := Respawn(body.cells, randoms);
      snake := body;
      cherry := spawn.value.cell;
      draws := randoms[spawn.value.used..];
    }

    /** One iteration of the game loop. */
    method Tick(key: Key) returns (outcome: Outcome)
      requires Valid()
      modifies this, snake
      ensures Valid() && snake == old(snake)
      ensures (Current(), outcome) == GameStep(old(Current()), key)
    {
      ghost var s := Current();
      GameStepPreservesInv(s, key);
      var flag := 0;
      if snake.cells[0] == cherry {
        flag := 1;
        var spawn := Respawn(snake.cells, draws);
        if spawn.None? {
          return Stalled;
        }
        cherry := spawn.value.cell;
        draws := draws[spawn.value.used..];
      }
      match key
      case Arrow(d) =>
        var count := snake.Length();
        var ok := CheckFlag(snake.cells, count, d);
        if ok {
          snake.Locomotion(flag, d);
        }
        outcome := Running;
      case Quit =>
        outcome := Finished;
      case Other =>
        outcome := Running;
    }

    /** The game loop over the given keys, until 'q' or a stall. */
    method Play(keys: seq<Key>) returns (outcome: Outcome)
      requires Valid()
      modifies this, snake
      ensures Valid() && snake == old(snake)
      ensures (Current(), outcome) == Run(old(Current()), keys)
    {
      outcome := Running;
      var i := 0;
      while i < |keys|
        invariant 0 <= i <= |keys|
        invariant Valid() && snake == old(snake) && outcome == Running
        invariant Run(old(Current()), keys) == Run(Current(), keys[i..])
      {
        assert keys[i..][1..] == keys[i + 1..];
        outcome := Tick(keys[i]);
        if outcome != Running {
          return;
        }
        i := i + 1;
      }
    }
  }
}
