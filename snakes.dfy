/**
  The two-player Snake engine (class `Snakes`). Each snake is a deque of
  cells, head first, drawn on a height x width board: the head as 2 * p and
  the body as p for player p in {1, -1}, fruit as 3, empty as 0. A step
  moves player 1, then player 2, each along its velocity; eating the fruit
  grows the snake, anything else keeps its length; a head that leaves the
  board or lands on a cell other than empty, fruit or its own head mark
  kills the snake. A new fruit is spawned on a random empty cell when some
  snake ate and both are still alive.

  `World` is the engine's state as a value and the functions over it say
  what each operation does; the class `Snakes` is the engine itself, over a
  mutable board, and each of its methods is proved to act as its function.
*/
module SnakeGame {
  import opened Wrappers
  import opened Boards

  const EMPTY := 0
  const NUM_PLAYERS := 2
  const PLAYER1 := 1
  const PLAYER1_HEAD := 2
  const PLAYER2 := -1
  const PLAYER2_HEAD := -2
  const FRUIT := 3

  /** The order in which `step` moves the players. */
  const PLAYERS: seq<int> := [PLAYER1, PLAYER2]
  const HEAD_MARKS: seq<int> := [PLAYER1_HEAD, PLAYER2_HEAD]

  /** Directions as (dy, dx). */
  const UP: Coord := (-1, 0)
  const LEFT: Coord := (0, -1)
  const DOWN: Coord := (1, 0)
  const RIGHT: Coord := (0, 1)
  const STILL: Coord := (0, 0)

  const ACTIONS: map<string, Coord> := map["W" := UP, "A" := LEFT, "S" := DOWN, "D" := RIGHT]

  predicate IsPlayer(p: int)
  {
    p == PLAYER1 || p == PLAYER2
  }

  /** A velocity a snake can have: standing still or one of the four directions. */
  predicate IsVelocity(v: Coord)
  {
    v == STILL || v == UP || v == LEFT || v == DOWN || v == RIGHT
  }

  lemma ActionsAreDirections(key: string)
    requires key in ACTIONS
    ensures IsVelocity(ACTIONS[key]) && ACTIONS[key] != STILL
  {
  }

  datatype World = World(
    height: int,
    width: int,
    board: Board,
    fruit: Option<Coord>,
    velocities: map<int, Coord>,
    snakes: map<int, seq<Coord>>,
    alive: map<int, bool>)

  /** Every cell of a snake but its head is on the board; so is the head while the snake lives. */
  predicate BodyOnBoard(w: World, p: int)
    requires p in w.snakes && p in w.alive
  {
    var s := w.snakes[p];
    && |s| >= 1
    && (forall i :: 1 <= i < |s| ==> InBounds(w.height, w.width, s[i]))
    && (w.alive[p] ==> InBounds(w.height, w.width, s[0]))
  }

  /** The engine's invariant. */
  predicate Inv(w: World)
  {
    && w.height >= 1 && w.width >= 1
    && IsBoard(w.board, w.height, w.width)
    && w.velocities.Keys == {PLAYER1, PLAYER2}
    && w.snakes.Keys == {PLAYER1, PLAYER2}
    && w.alive.Keys == {PLAYER1, PLAYER2}
    && IsVelocity(w.velocities[PLAYER1]) && IsVelocity(w.velocities[PLAYER2])
    && BodyOnBoard(w, PLAYER1) && BodyOnBoard(w, PLAYER2)
    && (w.fruit.Some? ==> InBounds(w.height, w.width, w.fruit.value))
  }

  /** The cells a move of `p` writes are on the board: it stands still or its head is on the board. */
  predicate MoveInBounds(w: World, p: int)
    requires Inv(w) && IsPlayer(p)
  {
    w.velocities[p] == STILL || InBounds(w.height, w.width, w.snakes[p][0])
  }

  /** Both moves of a step write only cells on the board. A live snake always qualifies. */
  predicate StepSafe(w: World)
    requires Inv(w)
  {
    MoveInBounds(w, PLAYER1) && MoveInBounds(w, PLAYER2)
  }

  lemma LiveSnakesAreSafe(w: World)
    requires Inv(w) && w.alive[PLAYER1] && w.alive[PLAYER2]
    ensures StepSafe(w)
  {
  }

  /** `_is_collision(y, x, ignore)`: off the board, or on a cell whose value is not in `ignore`. */
  function Collides(b: Board, height: int, width: int, n: Coord, ignore: set<int>): bool
    requires IsBoard(b, height, width)
  {
    n.0 < 0 || n.1 < 0 || n.0 >= height || n.1 >= width || b[n.0][n.1] !in ignore
  }

  function NextHead(head: Coord, vel: Coord): Coord
  {
    (vel.0 + head.0, vel.1 + head.1)
  }

  /** The fruit branch of `_move_snake`: the old head becomes body, the fruit cell becomes head, the tail stays. */
  function Eat(w: World, p: int): (r: World)
    requires Inv(w) && IsPlayer(p) && w.velocities[p] != STILL && InBounds(w.height, w.width, w.snakes[p][0])
    requires w.fruit == Some(NextHead(w.snakes[p][0], w.velocities[p]))
    ensures Inv(r)
  {
    var s := w.snakes[p];
    var n := NextHead(s[0], w.velocities[p]);
    var b := Set(Set(w.board, s[0], p), n, 2 * p);
    var r := w.(board := b, snakes := w.snakes[p := [n] + s]);
    assert BodyOnBoard(r, p);
    InvAfterMove(w, p, r);
    r
  }

  /** The board after the non-fruit branch has pushed the new head: old head written as body, old tail as EMPTY. */
  function Vacate(w: World, p: int): (b: Board)
    requires Inv(w) && IsPlayer(p) && InBounds(w.height, w.width, w.snakes[p][0])
    ensures IsBoard(b, w.height, w.width)
  {
    var s := w.snakes[p];
    Set(Set(w.board, s[0], p), s[|s| - 1], EMPTY)
  }

  /** The non-fruit branch of `_move_snake`: push, vacate the tail, pop, then check the new head's cell. */
  function Slide(w: World, p: int): (r: World)
    requires Inv(w) && IsPlayer(p) && w.velocities[p] != STILL && InBounds(w.height, w.width, w.snakes[p][0])
    ensures Inv(r)
  {
    var s := w.snakes[p];
    var n := NextHead(s[0], w.velocities[p]);
    var b := Vacate(w, p);
    var popped := ([n] + s)[..|s|];
    var hit := Collides(b, w.height, w.width, n, {EMPTY, FRUIT, 2 * p});
    var r := w.(
      board := if hit then b else Set(b, n, 2 * p),
      snakes := w.snakes[p := popped],
      alive := if hit then w.alive[p := false] else w.alive);
    PushPopOnBoard(w.height, w.width, s, n);
    assert BodyOnBoard(r, p);
    InvAfterMove(w, p, r);
    r
  }

  /** Pushing a cell and popping the tail keeps every body cell, the old head among them, on the board. */
  lemma PushPopOnBoard(height: int, width: int, s: seq<Coord>, n: Coord)
    requires |s| >= 1 && InBounds(height, width, s[0])
    requires forall i :: 1 <= i < |s| ==> InBounds(height, width, s[i])
    ensures var popped := ([n] + s)[..|s|];
      |popped| == |s| && popped[0] == n && forall i :: 1 <= i < |popped| ==> InBounds(height, width, popped[i])
  {
    var popped := ([n] + s)[..|s|];
    forall i | 1 <= i < |popped| ensures InBounds(height, width, popped[i]) {
      assert popped[i] == s[i - 1];
    }
  }

  /**
    A world that differs from a valid one only in its board (of the same
    shape), in player p's snake and in p's alive flag is valid if p's snake
    is on the board.
  */
  lemma InvAfterMove(w: World, p: int, r: World)
    requires Inv(w) && IsPlayer(p) && IsBoard(r.board, w.height, w.width)
    requires r.height == w.height && r.width == w.width && r.velocities == w.velocities && r.fruit == w.fruit
    requires r.snakes.Keys == {PLAYER1, PLAYER2} && r.alive.Keys == {PLAYER1, PLAYER2}
    requires r.snakes[-p] == w.snakes[-p] && r.alive[-p] == w.alive[-p] && BodyOnBoard(r, p)
    ensures Inv(r)
  {
    assert BodyOnBoard(r, -p);
  }

  /** The three parts of `Slide`, each on its own. */
  lemma SlideParts(w: World, p: int)
    requires Inv(w) && IsPlayer(p) && w.velocities[p] != STILL && InBounds(w.height, w.width, w.snakes[p][0])
    ensures var s, n := w.snakes[p], NextHead(w.snakes[p][0], w.velocities[p]);
      var hit := Collides(Vacate(w, p), w.height, w.width, n, {EMPTY, FRUIT, 2 * p});
      && Slide(w, p).snakes == w.snakes[p := ([n] + s)[..|s|]]
      && Slide(w, p).alive == (if hit then w.alive[p := false] else w.alive)
      && Slide(w, p).board == (if hit then Vacate(w, p) else Set(Vacate(w, p), n, 2 * p))
      && Slide(w, p) == w.(board := Slide(w, p).board, snakes := Slide(w, p).snakes, alive := Slide(w, p).alive)
  {
  }

  /**
    `_move_snake(p, velocities[p], snakes[p])`, returning the new world and
    whether the snake ate. Standing still changes nothing. Landing on the
    fruit writes the old head as body and the new cell as head and keeps the
    tail, with no collision check; `fruit` itself is left as it was.
    Otherwise the new head is pushed, the old head is written as body, then
    the old tail cell is written EMPTY and popped (for a one-cell snake that
    is the old head itself, which ends up EMPTY), and only then is the new
    cell checked: a collision kills the snake and leaves that cell as it is,
    even though the cell is already in the deque.
  */
  function Move(w: World, p: int): (r: (World, bool))
    requires Inv(w) && IsPlayer(p) && MoveInBounds(w, p)
    ensures Inv(r.0)
    ensures r.0.height == w.height && r.0.width == w.width
    ensures r.0.velocities == w.velocities && r.0.fruit == w.fruit
    ensures r.0.snakes[-p] == w.snakes[-p] && r.0.alive[-p] == w.alive[-p]
    ensures r.0.alive[p] ==> w.alive[p]
    ensures r.1 ==> r.0.alive[p] == w.alive[p]
  {
    var vel := w.velocities[p];
    if vel == STILL then (w, false)
    else if w.fruit == Some(NextHead(w.snakes[p][0], vel)) then (Eat(w, p), true)
    else (Slide(w, p), false)
  }

  predicate Distinct(ps: seq<int>)
  {
    forall i, j :: 0 <= i < j < |ps| ==> ps[i] != ps[j]
  }

  /**
    The move loop of `step` over the players `ps`, in order, with the
    accumulated `fruit_was_eaten`. A player not in `ps` keeps its snake and
    flag, no velocity or fruit changes, and no snake comes back to life.
  */
  function MoveAll(w: World, ps: seq<int>): (r: (World, bool))
    requires Inv(w) && Distinct(ps)
    requires forall i :: 0 <= i < |ps| ==> IsPlayer(ps[i]) && MoveInBounds(w, ps[i])
    ensures Inv(r.0)
    ensures r.0.height == w.height && r.0.width == w.width
    ensures r.0.velocities == w.velocities && r.0.fruit == w.fruit
    ensures PLAYER1 !in ps ==> r.0.snakes[PLAYER1] == w.snakes[PLAYER1] && r.0.alive[PLAYER1] == w.alive[PLAYER1]
    ensures PLAYER2 !in ps ==> r.0.snakes[PLAYER2] == w.snakes[PLAYER2] && r.0.alive[PLAYER2] == w.alive[PLAYER2]
    ensures (r.0.alive[PLAYER1] ==> w.alive[PLAYER1]) && (r.0.alive[PLAYER2] ==> w.alive[PLAYER2])
    decreases |ps|
  {
    if ps == [] then (w, false)
    else
      var prefix, last := ps[..|ps| - 1], ps[|ps| - 1];
      assert forall i :: 0 <= i < |prefix| ==> prefix[i] == ps[i];
      var (moved, eaten) := MoveAll(w, prefix);
      assert last !in prefix && IsPlayer(last) && MoveInBounds(w, last);
      assert moved.snakes[last] == w.snakes[last];
      var (moved', ate) := Move(moved, last);
      (moved', eaten || ate)
  }

  /** One more turn of the move loop of `step`: the next player can still move, and the loop result extends by its move. */
  lemma MoveAllNext(w: World, i: nat)
    requires Inv(w) && StepSafe(w) && i < |PLAYERS|
    ensures MoveInBounds(MoveAll(w, PLAYERS[..i]).0, PLAYERS[i])
    ensures var (m, e) := MoveAll(w, PLAYERS[..i]);
      MoveAll(w, PLAYERS[..i + 1]) == (Move(m, PLAYERS[i]).0, e || Move(m, PLAYERS[i]).1)
  {
    if i == 0 {
      assert PLAYERS[..0] == [] && PLAYERS[..1] == [PLAYER1];
    } else {
      assert PLAYERS[..1] == [PLAYER1] && PLAYERS[..2] == [PLAYER1, PLAYER2];
    }
  }

  /**
    `_spawn_fruit`, with the source's `random.choice` over the empty cells
    replaced by the caller's `pick`: the cell chosen is
    `positions[pick % len(positions)]`. With no empty cell the fruit is None.
  */
  function Respawned(w: World, pick: nat): (r: World)
    requires Inv(w)
    ensures Inv(r)
    ensures r == w.(fruit := r.fruit, board := r.board)
  {
    var positions := Positions(w.board, w.height, w.width, EMPTY, true);
    if |positions| == 0 then w.(fruit := None)
    else
      var f := positions[pick % |positions|];
      assert f in positions;
      w.(fruit := Some(f), board := Set(w.board, f, FRUIT))
  }

  /** `is_game_over`: some snake is dead. */
  function IsGameOver(alive: map<int, bool>): bool
    requires PLAYER1 in alive && PLAYER2 in alive
  {
    !(alive[PLAYER1] && alive[PLAYER2])
  }

  /** `winner` (only asked once the game is over): the sole survivor, or None when both died. */
  function Winner(alive: map<int, bool>): (r: Option<int>)
    requires PLAYER1 in alive && PLAYER2 in alive && IsGameOver(alive)
    ensures r == Some(PLAYER1) <==> alive[PLAYER1]
    ensures r == Some(PLAYER2) <==> alive[PLAYER2]
    ensures r == None <==> !alive[PLAYER1] && !alive[PLAYER2]
  {
    if alive[PLAYER1] then Some(PLAYER1) else if alive[PLAYER2] then Some(PLAYER2) else None
  }

  /** `step`: move player 1, then player 2, then spawn a fruit if one was eaten and nobody died. */
  function Stepped(w: World, pick: nat): (r: World)
    requires Inv(w) && StepSafe(w)
    ensures Inv(r)
    ensures r.height == w.height && r.width == w.width && r.velocities == w.velocities
  {
    var (moved, eaten) := MoveAll(w, PLAYERS);
    if !IsGameOver(moved.alive) && eaten then Respawned(moved, pick) else moved
  }

  /** The board after the set-up loop of `__init__` has placed the first n head marks. */
  function PlaceHeads(b: Board, height: int, width: int, snakes: map<int, seq<Coord>>, n: nat): (r: Board)
    requires IsBoard(b, height, width) && n <= |PLAYERS|
    requires forall i :: 0 <= i < |PLAYERS| ==>
      (PLAYERS[i] in snakes && |snakes[PLAYERS[i]]| >= 1 && InBounds(height, width, snakes[PLAYERS[i]][0]))
    ensures IsBoard(r, height, width)
  {
    if n == 0 then b
    else Set(PlaceHeads(b, height, width, snakes, n - 1), snakes[PLAYERS[n - 1]][0], HEAD_MARKS[n - 1])
  }

  const START_VELOCITIES: map<int, Coord> := map[PLAYER1 := STILL, PLAYER2 := STILL]
  const START_ALIVE: map<int, bool> := map[PLAYER1 := true, PLAYER2 := true]

  function StartSnakes(width: int, height: int): map<int, seq<Coord>>
  {
    map[PLAYER1 := [(0, 0)], PLAYER2 := [(height - 1, width - 1)]]
  }

  /** The world `__init__` builds before its fruit is spawned. */
  function StartWorld(width: int, height: int): (r: World)
    requires width >= 1 && height >= 1
    ensures Inv(r)
  {
    var snakes := StartSnakes(width, height);
    World(height, width, PlaceHeads(Filled(height, width, EMPTY), height, width, snakes, |PLAYERS|),
          None, START_VELOCITIES, snakes, START_ALIVE)
  }

  /** `Snakes(width, height)`, with `pick` standing for the random choice of the first fruit. */
  function InitialWorld(width: int, height: int, pick: nat): (r: World)
    requires width >= 1 && height >= 1
    ensures Inv(r)
  {
    Respawned(StartWorld(width, height), pick)
  }

  /** `make_move(p, key)`: only player p's velocity changes, to the direction of `key`. */
  function Steered(w: World, p: int, key: string): (r: World)
    requires Inv(w) && IsPlayer(p) && key in ACTIONS
    ensures Inv(r)
    ensures r.velocities[p] == ACTIONS[key] && r.velocities[-p] == w.velocities[-p]
    ensures r == w.(velocities := r.velocities)
  {
    w.(velocities := w.velocities[p := ACTIONS[key]])
  }

  // ---------------------------------------------------------------------
  // Properties of a single move

  /** Standing still is a no-op that eats nothing and cannot die. */
  lemma MoveStandingStill(w: World, p: int)
    requires Inv(w) && IsPlayer(p) && w.velocities[p] == STILL
    ensures Move(w, p) == (w, false)
  {
  }

  /**
    Eating: the deque grows by the new head with the tail kept, the old head
    cell becomes body and the fruit cell becomes head, every other cell and
    both alive flags are unchanged, and `fruit` still names the eaten cell.
  */
  lemma MoveOntoFruit(w: World, p: int)
    requires Inv(w) && IsPlayer(p) && MoveInBounds(w, p) && w.velocities[p] != STILL
    requires w.fruit == Some(NextHead(w.snakes[p][0], w.velocities[p]))
    ensures var s, n, r := w.snakes[p], NextHead(w.snakes[p][0], w.velocities[p]), Move(w, p);
      && r.1
      && r.0.snakes[p] == [n] + s && |r.0.snakes[p]| == |s| + 1
      && r.0.board[s[0].0][s[0].1] == p && r.0.board[n.0][n.1] == 2 * p
      && (forall q :: InBounds(w.height, w.width, q) && q != s[0] && q != n ==> r.0.board[q.0][q.1] == w.board[q.0][q.1])
      && r.0.alive == w.alive && r.0.fruit == Some(n)
  {
  }

  /**
    Where a non-eating move of `p` survives, stated on the board before the
    move: the new cell is on the board and is the snake's own tail, or holds
    EMPTY, FRUIT or p's head mark.
  */
  predicate LandsSafely(w: World, p: int)
    requires Inv(w) && IsPlayer(p)
  {
    var s := w.snakes[p];
    var n := NextHead(s[0], w.velocities[p]);
    InBounds(w.height, w.width, n) && (n == s[|s| - 1] || w.board[n.0][n.1] in {EMPTY, FRUIT, 2 * p})
  }

  /** The cells after the old head is written as body and the old tail as EMPTY. */
  lemma VacateCells(w: World, p: int, q: Coord)
    requires Inv(w) && IsPlayer(p) && InBounds(w.height, w.width, w.snakes[p][0]) && InBounds(w.height, w.width, q)
    ensures var s := w.snakes[p];
      Vacate(w, p)[q.0][q.1] == (if q == s[|s| - 1] then EMPTY else if q == s[0] then p else w.board[q.0][q.1])
  {
  }

  /** The collision check of a non-eating move fails exactly when the move does not land safely. */
  lemma CollidesUnlessSafe(w: World, p: int)
    requires Inv(w) && IsPlayer(p) && InBounds(w.height, w.width, w.snakes[p][0]) && w.velocities[p] != STILL
    ensures var n := NextHead(w.snakes[p][0], w.velocities[p]);
      Collides(Vacate(w, p), w.height, w.width, n, {EMPTY, FRUIT, 2 * p}) == !LandsSafely(w, p)
  {
    var n := NextHead(w.snakes[p][0], w.velocities[p]);
    if InBounds(w.height, w.width, n) {
      VacateCells(w, p, n);
    }
  }

  /** The board after a non-eating move: the vacated board, with the head mark written if the move lands safely. */
  lemma MoveElsewhereBoardIs(w: World, p: int)
    requires Inv(w) && IsPlayer(p) && MoveInBounds(w, p) && w.velocities[p] != STILL
    requires w.fruit != Some(NextHead(w.snakes[p][0], w.velocities[p]))
    ensures var n := NextHead(w.snakes[p][0], w.velocities[p]);
      Move(w, p).0.board == if LandsSafely(w, p) then Set(Vacate(w, p), n, 2 * p) else Vacate(w, p)
  {
    CollidesUnlessSafe(w, p);
  }

  /** Moving onto anything but the fruit keeps the length: the new head is pushed and the old tail dropped; nothing is eaten. */
  lemma MoveElsewhereKeepsLength(w: World, p: int)
    requires Inv(w) && IsPlayer(p) && MoveInBounds(w, p) && w.velocities[p] != STILL
    requires w.fruit != Some(NextHead(w.snakes[p][0], w.velocities[p]))
    ensures var s, n, r := w.snakes[p], NextHead(w.snakes[p][0], w.velocities[p]), Move(w, p);
      && !r.1
      && r.0.snakes[p] == [n] + s[..|s| - 1] && |r.0.snakes[p]| == |s|
  {
    var s, n := w.snakes[p], NextHead(w.snakes[p][0], w.velocities[p]);
    assert ([n] + s)[..|s|] == [n] + s[..|s| - 1];
  }

  /**
    A non-eating move survives exactly when `LandsSafely` holds (and the snake
    was alive); the new cell then holds the head mark, while a casualty's new
    cell keeps the value it had, although the deque already lists it.
  */
  lemma {:induction false} MoveElsewhereFate(w: World, p: int)
    requires Inv(w) && IsPlayer(p) && MoveInBounds(w, p) && w.velocities[p] != STILL
    requires w.fruit != Some(NextHead(w.snakes[p][0], w.velocities[p]))
    ensures var n, r := NextHead(w.snakes[p][0], w.velocities[p]), Move(w, p);
      && r.0.alive[p] == (w.alive[p] && LandsSafely(w, p))
      && (InBounds(w.height, w.width, n) ==>
            r.0.board[n.0][n.1] == (if LandsSafely(w, p) then 2 * p else w.board[n.0][n.1]))
  {
    var n := NextHead(w.snakes[p][0], w.velocities[p]);
    CollidesUnlessSafe(w, p);
    MoveElsewhereBoardIs(w, p);
    if InBounds(w.height, w.width, n) {
      VacateCells(w, p, n);
    }
  }

  /**
    The rest of the board after a non-eating move: the old head cell becomes
    body, except when it is also the tail (a one-cell snake), which leaves it
    EMPTY; the old tail cell is EMPTY unless the head moved into it; no other
    cell changes.
  */
  lemma {:induction false} MoveElsewhereBoard(w: World, p: int)
    requires Inv(w) && IsPlayer(p) && MoveInBounds(w, p) && w.velocities[p] != STILL
    requires w.fruit != Some(NextHead(w.snakes[p][0], w.velocities[p]))
    ensures var s, n, r := w.snakes[p], NextHead(w.snakes[p][0], w.velocities[p]), Move(w, p);
      var tail := s[|s| - 1];
      && r.0.board[s[0].0][s[0].1] == (if tail == s[0] then EMPTY else p)
      && (tail != n ==> r.0.board[tail.0][tail.1] == EMPTY)
      && (forall q :: InBounds(w.height, w.width, q) && q != s[0] && q != tail && q != n ==>
            r.0.board[q.0][q.1] == w.board[q.0][q.1])
  {
    var s, n := w.snakes[p], NextHead(w.snakes[p][0], w.velocities[p]);
    var tail := s[|s| - 1];
    assert InBounds(w.height, w.width, tail);
    MoveElsewhereOffHead(w, p, s[0]);
    VacateCells(w, p, s[0]);
    if tail != n {
      MoveElsewhereOffHead(w, p, tail);
      VacateCells(w, p, tail);
    }
    forall q | InBounds(w.height, w.width, q) && q != s[0] && q != tail && q != n
      ensures Move(w, p).0.board[q.0][q.1] == w.board[q.0][q.1]
    {
      MoveElsewhereOffHead(w, p, q);
      VacateCells(w, p, q);
    }
  }

  /** Away from the new head cell, a non-eating move leaves the vacated board. */
  lemma MoveElsewhereOffHead(w: World, p: int, q: Coord)
    requires Inv(w) && IsPlayer(p) && MoveInBounds(w, p) && w.velocities[p] != STILL
    requires w.fruit != Some(NextHead(w.snakes[p][0], w.velocities[p]))
    requires InBounds(w.height, w.width, q) && q != NextHead(w.snakes[p][0], w.velocities[p])
    ensures Move(w, p).0.board[q.0][q.1] == Vacate(w, p)[q.0][q.1]
  {
    MoveElsewhereBoardIs(w, p);
  }

  /** The quirk of a one-cell snake: a non-eating move leaves no body behind, its old cell is EMPTY. */
  lemma OneCellSnakeLeavesNoBody(w: World, p: int)
    requires Inv(w) && IsPlayer(p) && MoveInBounds(w, p) && w.velocities[p] != STILL
    requires w.fruit != Some(NextHead(w.snakes[p][0], w.velocities[p])) && |w.snakes[p]| == 1
    ensures var s := w.snakes[p]; Move(w, p).0.board[s[0].0][s[0].1] == EMPTY
  {
    MoveElsewhereBoard(w, p);
  }

  /** A move never shortens a snake: eating adds one cell, any other move keeps the length. */
  lemma MoveNeverShrinks(w: World, p: int, q: int)
    requires Inv(w) && IsPlayer(p) && IsPlayer(q) && MoveInBounds(w, p)
    ensures |Move(w, p).0.snakes[q]| >= |w.snakes[q]|
    ensures Move(w, p).1 ==> |Move(w, p).0.snakes[p]| == |w.snakes[p]| + 1
  {
    if q == p && w.velocities[p] != STILL {
      if w.fruit == Some(NextHead(w.snakes[p][0], w.velocities[p])) {
        MoveOntoFruit(w, p);
      } else {
        MoveElsewhereKeepsLength(w, p);
      }
    }
  }

  // ---------------------------------------------------------------------
  // Properties of a step

  /** `step` moves player 1 first, then player 2 on the world player 1 left behind. */
  lemma StepMovesPlayerOneFirst(w: World)
    requires Inv(w) && StepSafe(w)
    ensures var (w1, e1) := Move(w, PLAYER1);
      MoveInBounds(w1, PLAYER2)
      && MoveAll(w, PLAYERS) == (Move(w1, PLAYER2).0, e1 || Move(w1, PLAYER2).1)
  {
    assert PLAYERS[..1] == [PLAYER1];
    assert [PLAYER1][..0] == [];
    var (w1, e1) := Move(w, PLAYER1);
    assert MoveAll(w, [PLAYER1]) == (w1, false || e1);
    assert w1.snakes[PLAYER2] == w.snakes[PLAYER2];
  }

  /** Snakes only die: no alive flag goes from False to True, whatever the fruit pick. */
  lemma StepAliveOnlyFalls(w: World, pick: nat, q: int)
    requires Inv(w) && StepSafe(w) && IsPlayer(q)
    ensures Stepped(w, pick).alive[q] ==> w.alive[q]
  {
  }

  /** A step never shortens a snake. */
  lemma StepNeverShrinks(w: World, pick: nat, q: int)
    requires Inv(w) && StepSafe(w) && IsPlayer(q)
    ensures |Stepped(w, pick).snakes[q]| >= |w.snakes[q]|
  {
    StepMovesPlayerOneFirst(w);
    var w1 := Move(w, PLAYER1).0;
    MoveNeverShrinks(w, PLAYER1, q);
    MoveNeverShrinks(w1, PLAYER2, q);
  }

  /**
    A fruit is spawned only when a snake ate and both survived: otherwise the
    step is the two moves alone, its fruit is the old one and the pick does
    not matter.
  */
  lemma StepSpawnsOnlyAfterEating(w: World, pick: nat, pick': nat)
    requires Inv(w) && StepSafe(w)
    ensures var (moved, eaten) := MoveAll(w, PLAYERS);
      && (eaten && !IsGameOver(moved.alive) ==> Stepped(w, pick) == Respawned(moved, pick))
      && (!eaten || IsGameOver(moved.alive) ==> Stepped(w, pick) == moved && Stepped(w, pick).fruit == w.fruit
                                                 && Stepped(w, pick) == Stepped(w, pick'))
  {
  }

  /** Standing still on both sides is a fixpoint of `step`. */
  lemma StepBothStillIsNoop(w: World, pick: nat)
    requires Inv(w) && w.velocities[PLAYER1] == STILL && w.velocities[PLAYER2] == STILL
    ensures Stepped(w, pick) == w
  {
    StepMovesPlayerOneFirst(w);
  }

  // ---------------------------------------------------------------------
  // The fruit

  /**
    `_spawn_fruit` puts FRUIT on a cell that was EMPTY and changes no other
    cell, or, when no cell is EMPTY, sets the fruit to None and leaves the
    board alone.
  */
  lemma SpawnFruitOutcome(w: World, pick: nat)
    requires Inv(w)
    ensures var r := Respawned(w, pick);
      && (r.fruit == None <==> forall q :: InBounds(w.height, w.width, q) ==> w.board[q.0][q.1] != EMPTY)
      && (r.fruit == None ==> r.board == w.board)
      && (r.fruit.Some? ==> var f := r.fruit.value;
            InBounds(w.height, w.width, f) && w.board[f.0][f.1] == EMPTY && r.board == Set(w.board, f, FRUIT))
  {
    var positions := Positions(w.board, w.height, w.width, EMPTY, true);
    if |positions| > 0 {
      assert positions[pick % |positions|] in positions;
    }
  }

  lemma SpawnFruitPicksIndex(w: World, i: nat)
    requires Inv(w) && i < |Positions(w.board, w.height, w.width, EMPTY, true)|
    ensures Respawned(w, i).fruit == Some(Positions(w.board, w.height, w.width, EMPTY, true)[i])
  {
    var positions := Positions(w.board, w.height, w.width, EMPTY, true);
    assert i % |positions| == i;
  }

  /** Every empty cell can receive the fruit: some pick chooses it. */
  lemma SpawnFruitCanChooseAnyEmptyCell(w: World, f: Coord)
    requires Inv(w) && InBounds(w.height, w.width, f) && w.board[f.0][f.1] == EMPTY
    ensures exists pick: nat :: Respawned(w, pick).fruit == Some(f)
  {
    var positions := Positions(w.board, w.height, w.width, EMPTY, true);
    assert f in positions;
    var i :| 0 <= i < |positions| && positions[i] == f;
    SpawnFruitPicksIndex(w, i);
  }

  // ---------------------------------------------------------------------
  // The fresh game

  /**
    `Snakes(width, height)`: player 1 is the one cell (0, 0), player 2 the
    one cell (height - 1, width - 1), both alive and standing still; the
    board shows player 2's head at its corner and player 1's at its corner
    (unless the board is a single cell, where player 2's mark overwrites
    it); FRUIT is on exactly the fruit's cell, which was not a head cell,
    and every other cell is EMPTY.
  */
  lemma InitialWorldLayout(width: int, height: int, pick: nat)
    requires width >= 1 && height >= 1
    ensures var r := InitialWorld(width, height, pick);
      var c1, c2 := (0, 0), (height - 1, width - 1);
      && r.snakes[PLAYER1] == [c1] && r.snakes[PLAYER2] == [c2]
      && r.alive[PLAYER1] && r.alive[PLAYER2]
      && r.velocities[PLAYER1] == STILL && r.velocities[PLAYER2] == STILL
      && r.board[c2.0][c2.1] == PLAYER2_HEAD
      && (c1 != c2 ==> r.board[c1.0][c1.1] == PLAYER1_HEAD)
      && (r.fruit.Some? ==> r.fruit.value != c1 && r.fruit.value != c2)
      && (forall q :: InBounds(height, width, q) ==>
            (r.board[q.0][q.1] == FRUIT <==> r.fruit == Some(q))
            && (q != c1 && q != c2 && r.fruit != Some(q) ==> r.board[q.0][q.1] == EMPTY))
  {
    var w0 := StartWorld(width, height);
    var r := InitialWorld(width, height, pick);
    var c1, c2 := (0, 0), (height - 1, width - 1);
    StartBoardLayout(width, height);
    SpawnFruitOutcome(w0, pick);
    forall q | InBounds(height, width, q)
      ensures (r.board[q.0][q.1] == FRUIT <==> r.fruit == Some(q))
      ensures q != c1 && q != c2 && r.fruit != Some(q) ==> r.board[q.0][q.1] == EMPTY
    {
      if r.fruit.Some? {
        assert r.board[q.0][q.1] == if q == r.fruit.value then FRUIT else w0.board[q.0][q.1];
      }
    }
  }

  /** The board of `StartWorld` before the fruit: player 2's head mark at its corner, player 1's at its corner unless overwritten, EMPTY elsewhere. */
  lemma StartBoardLayout(width: int, height: int)
    requires width >= 1 && height >= 1
    ensures var b, c1, c2 := StartWorld(width, height).board, (0, 0), (height - 1, width - 1);
      forall q :: InBounds(height, width, q) ==>
        b[q.0][q.1] == if q == c2 then PLAYER2_HEAD else if q == c1 then PLAYER1_HEAD else EMPTY
  {
    var c1, c2 := (0, 0), (height - 1, width - 1);
    var b0 := Filled(height, width, EMPTY);
    var snakes := StartSnakes(width, height);
    assert PLAYERS[0] == PLAYER1 && HEAD_MARKS[0] == PLAYER1_HEAD && snakes[PLAYER1][0] == c1;
    assert PLAYERS[1] == PLAYER2 && HEAD_MARKS[1] == PLAYER2_HEAD && snakes[PLAYER2][0] == c2;
    var b1 := PlaceHeads(b0, height, width, snakes, 1);
    assert PlaceHeads(b0, height, width, snakes, 0) == b0;
    assert b1 == Set(b0, c1, PLAYER1_HEAD);
    assert StartWorld(width, height).board == Set(b1, c2, PLAYER2_HEAD);
  }

  // ---------------------------------------------------------------------
  // Two small boards that show the order of moves and the stale fruit

  /** A 1 x 3 board with the heads at both ends and `middle` between them; both snakes head for the middle. */
  function Corridor(middle: int, fruit: Option<Coord>): (w: World)
    requires fruit == None || fruit == Some((0, 1))
    ensures Inv(w)
  {
    World(1, 3, [[PLAYER1_HEAD, middle, PLAYER2_HEAD]], fruit,
          map[PLAYER1 := RIGHT, PLAYER2 := LEFT],
          map[PLAYER1 := [(0, 0)], PLAYER2 := [(0, 2)]],
          START_ALIVE)
  }

  /**
    Moving first decides a head-on race for an empty cell: player 1 takes
    it and survives, player 2 runs into player 1's new head and dies. Had
    player 2 moved first, the outcome would be the mirror image.
  */
  lemma FirstMoverWinsHeadOnRace()
    ensures var r := Stepped(Corridor(EMPTY, None), 0);
      && r.alive[PLAYER1] && !r.alive[PLAYER2]
      && Winner(r.alive) == Some(PLAYER1)
      && r.board == [[EMPTY, PLAYER1_HEAD, EMPTY]]
    ensures var w := Corridor(EMPTY, None);
      !Move(Move(w, PLAYER2).0, PLAYER1).0.alive[PLAYER1]
  {
    var w := Corridor(EMPTY, None);
    StepMovesPlayerOneFirst(w);
    var w1 := RaceFirstMove(w, PLAYER1);
    var w2 := RaceSecondMove(w1, PLAYER2);
    StepSpawnsOnlyAfterEating(w, 0, 0);
    var v1 := RaceFirstMove(w, PLAYER2);
    var v2 := RaceSecondMove(v1, PLAYER1);
  }

  /** The race board once `first` has moved into the middle: its old cell is EMPTY, the other head is untouched. */
  function RaceMidway(first: int): Board
  {
    if first == PLAYER1 then [[EMPTY, PLAYER1_HEAD, PLAYER2_HEAD]] else [[PLAYER1_HEAD, PLAYER2_HEAD, EMPTY]]
  }

  /** In the race, the first mover's one-cell snake steps into the middle and survives. */
  lemma RaceFirstMove(w: World, p: int) returns (w1: World)
    requires w == Corridor(EMPTY, None) && IsPlayer(p)
    ensures Move(w, p) == (w1, false) && Inv(w1) && w1.alive == START_ALIVE
    ensures w1.board == RaceMidway(p) && w1.snakes[-p] == w.snakes[-p]
    ensures w1.velocities == w.velocities
  {
    assert LandsSafely(w, p);
    MoveElsewhereKeepsLength(w, p);
    MoveElsewhereFate(w, p);
    MoveElsewhereBoard(w, p);
    w1 := Move(w, p).0;
    BoardExt(w1.board, RaceMidway(p), 1, 3);
  }

  /** In the race, the second mover finds the first mover's head in the middle and dies. */
  lemma RaceSecondMove(w1: World, p: int) returns (w2: World)
    requires Inv(w1) && IsPlayer(p) && w1.height == 1 && w1.width == 3 && w1.fruit == None
    requires w1.board == RaceMidway(-p) && w1.alive == START_ALIVE
    requires w1.snakes[p] == [if p == PLAYER1 then (0, 0) else (0, 2)]
    requires w1.velocities[p] == (if p == PLAYER1 then RIGHT else LEFT)
    ensures Move(w1, p) == (w2, false) && !w2.alive[p] && w2.alive[-p]
    ensures w2.board == [[EMPTY, -2 * p, EMPTY]]
  {
    assert !LandsSafely(w1, p);
    MoveElsewhereKeepsLength(w1, p);
    MoveElsewhereFate(w1, p);
    MoveElsewhereBoard(w1, p);
    w2 := Move(w1, p).0;
    BoardExt(w2.board, [[EMPTY, -2 * p, EMPTY]], 1, 3);
  }

  /**
    Nothing in `_move_snake` looks at the alive flag: a dead snake with a
    velocity still moves. Onto the fruit it eats (and the step reports it);
    onto an empty cell it lands safely and its head mark is drawn, yet it
    stays dead.
  */
  lemma DeadSnakeKeepsMoving()
    ensures var w := Corridor(FRUIT, Some((0, 1))).(alive := map[PLAYER1 := false, PLAYER2 := true]);
      Move(w, PLAYER1).1 && !Move(w, PLAYER1).0.alive[PLAYER1]
    ensures var w := Corridor(EMPTY, None).(alive := map[PLAYER1 := false, PLAYER2 := true]);
      !Move(w, PLAYER1).1 && !Move(w, PLAYER1).0.alive[PLAYER1]
      && Move(w, PLAYER1).0.board[0][1] == PLAYER1_HEAD
  {
    var w := Corridor(EMPTY, None).(alive := map[PLAYER1 := false, PLAYER2 := true]);
    assert LandsSafely(w, PLAYER1);
    MoveElsewhereFate(w, PLAYER1);
  }

  /**
    Because `fruit` is not cleared when eaten, both snakes can eat the same
    fruit in one step: player 2 lands on player 1's new head without a
    collision, both grow, and player 2's head mark replaces player 1's.
    With no EMPTY cell left, the respawn then sets the fruit to None.
  */
  lemma BothSnakesEatOneFruit()
    ensures var r := Stepped(Corridor(FRUIT, Some((0, 1))), 0);
      && r.alive[PLAYER1] && r.alive[PLAYER2]
      && r.snakes[PLAYER1] == [(0, 1), (0, 0)] && r.snakes[PLAYER2] == [(0, 1), (0, 2)]
      && r.board == [[PLAYER1, PLAYER2_HEAD, PLAYER2]]
      && r.fruit == None
  {
    var w := Corridor(FRUIT, Some((0, 1)));
    var w2 := BothEatMoves();
    StepMovesPlayerOneFirst(w);
    assert Stepped(w, 0) == Respawned(w2, 0);
    forall q | InBounds(1, 3, q)
      ensures w2.board[q.0][q.1] != EMPTY
    {
    }
    SpawnFruitOutcome(w2, 0);
  }

  /** The two moves of the step in `BothSnakesEatOneFruit`. */
  lemma BothEatMoves() returns (w2: World)
    ensures Inv(w2) && Move(Move(Corridor(FRUIT, Some((0, 1))), PLAYER1).0, PLAYER2) == (w2, true)
    ensures Move(Corridor(FRUIT, Some((0, 1))), PLAYER1).1
    ensures Inv(w2) && w2.alive == START_ALIVE && w2.fruit == Some((0, 1))
    ensures w2.snakes[PLAYER1] == [(0, 1), (0, 0)] && w2.snakes[PLAYER2] == [(0, 1), (0, 2)]
    ensures w2.board == [[PLAYER1, PLAYER2_HEAD, PLAYER2]]
  {
    var w := Corridor(FRUIT, Some((0, 1)));
    MoveOntoFruit(w, PLAYER1);
    var w1 := Move(w, PLAYER1).0;
    BoardExt(w1.board, [[PLAYER1, PLAYER1_HEAD, PLAYER2_HEAD]], 1, 3);
    MoveOntoFruit(w1, PLAYER2);
    w2 := Move(w1, PLAYER2).0;
    BoardExt(w2.board, [[PLAYER1, PLAYER2_HEAD, PLAYER2]], 1, 3);
  }

  // ---------------------------------------------------------------------
  // The engine

  /** The `Snakes` engine object. Its board is an array that the methods update in place. */
  class Snakes {
    const width: int
    const height: int
    const board: array2<int>
    var fruit: Option<Coord>
    var velocities: map<int, Coord>
    var snakes: map<int, seq<Coord>>
    var alive: map<int, bool>

    /** The engine's state as a value. */
    ghost function Model(): World
      reads this, board
    {
      World(height, width, Snapshot(board), fruit, velocities, snakes, alive)
    }

    ghost predicate Valid()
      reads this, board
    {
      board.Length0 == height && board.Length1 == width && Inv(Model())
    }

    /** `Snakes(width, height)`; `pick` chooses the first fruit among the empty cells. */
    constructor (width: int, height: int, pick: nat)
      requires width >= 1 && height >= 1
      ensures Valid() && fresh(board)
      ensures Model() == InitialWorld(width, height, pick)
    {
      this.width := width;
      this.height := height;
      board := new int[height, width]((_, _) => EMPTY);
      fruit := None;
      velocities := START_VELOCITIES;
      snakes := StartSnakes(width, height);
      alive := START_ALIVE;
      new;
      BoardExt(Snapshot(board), Filled(height, width, EMPTY), height, width);
      // set up board: each snake's single cell gets its head mark
      for i := 0 to |PLAYERS|
        invariant fruit == None && velocities == START_VELOCITIES
        invariant snakes == StartSnakes(width, height) && alive == START_ALIVE
        invariant Snapshot(board) == PlaceHeads(Filled(height, width, EMPTY), height, width, snakes, i)
      {
        var p, mark := PLAYERS[i], HEAD_MARKS[i];
        var snake := snakes[p];
        ghost var before := Snapshot(board);
        board[snake[0].0, snake[0].1] := mark;
        SnapshotAfterWrite(board, before, snake[0], mark);
      }
      assert Model() == StartWorld(width, height);
      SpawnFruit(pick);
    }

    /** `make_move`: set one player's velocity from a W/A/S/D key. */
    method MakeMove(player: int, action: string)
      requires Valid() && IsPlayer(player) && action in ACTIONS
      modifies this
      ensures Valid() && Model() == Steered(old(Model()), player, action)
    {
      velocities := velocities[player := ACTIONS[action]];
    }

    /** `_spawn_fruit`, with `pick` in place of the random choice. */
    method SpawnFruit(pick: nat)
      requires Valid()
      modifies this, board
      ensures Valid() && Model() == Respawned(old(Model()), pick)
    {
      var positions := Positions(Snapshot(board), height, width, EMPTY, true);
      if |positions| == 0 {
        fruit := None;
        return;
      }
      var f := positions[pick % |positions|];
      assert f in positions;
      fruit := Some(f);
      ghost var before := Snapshot(board);
      board[f.0, f.1] := FRUIT;
      SnapshotAfterWrite(board, before, f, FRUIT);
    }

    /** `_is_collision`. */
    function IsCollision(y: int, x: int, ignore: set<int>): (r: bool)
      reads this, board
      requires board.Length0 == height && board.Length1 == width
      ensures r == Collides(Snapshot(board), height, width, (y, x), ignore)
    {
      y < 0 || x < 0 || y >= height || x >= width || board[y, x] !in ignore
    }

    /** `_move_snake(player, velocities[player], snakes[player])`: returns whether the snake ate. */
    method MoveSnake(player: int) returns (ate: bool)
      requires Valid() && IsPlayer(player) && MoveInBounds(Model(), player)
      modifies this, board
      ensures Valid() && (Model(), ate) == Move(old(Model()), player)
    {
      var vel := velocities[player];
      if vel == (0, 0) {
        return false;
      }
      var (dy, dx) := vel;
      var (y, x) := snakes[player][0];
      var ny, nx := dy + y, dx + x;
      if fruit == Some((ny, nx)) {
        EatFruit(player, ny, nx);
        return true;
      }
      SlideTo(player, ny, nx);
      return false;
    }

    /** `self.board[r, c] = v`. */
    method SetCell(r: int, c: int, v: int)
      requires board.Length0 == height && board.Length1 == width && InBounds(height, width, (r, c))
      modifies board
      ensures Snapshot(board) == Set(old(Snapshot(board)), (r, c), v)
    {
      ghost var before := Snapshot(board);
      board[r, c] := v;
      SnapshotAfterWrite(board, before, (r, c), v);
    }

    /** The fruit branch of `_move_snake`: old head to body, new cell to head, push the new head. */
    method EatFruit(player: int, ny: int, nx: int)
      requires Valid() && IsPlayer(player) && velocities[player] != STILL
      requires InBounds(height, width, snakes[player][0])
      requires (ny, nx) == NextHead(snakes[player][0], velocities[player]) && fruit == Some((ny, nx))
      modifies this, board
      ensures Valid() && Model() == Eat(old(Model()), player)
    {
      ghost var w := Model();
      var (y, x) := snakes[player][0];
      var head, body := player * 2, player;
      SetCell(y, x, body);
      SetCell(ny, nx, head);
      snakes := snakes[player := [(ny, nx)] + snakes[player]];
      assert Snapshot(board) == Eat(w, player).board;
      assert snakes == Eat(w, player).snakes;
    }

    /**
      The other branch of `_move_snake`: push the new head, write the old head
      as body and the old tail as EMPTY, pop, then either mark the snake dead
      or write the head.
    */
    method SlideTo(player: int, ny: int, nx: int)
      requires Valid() && IsPlayer(player) && velocities[player] != STILL
      requires InBounds(height, width, snakes[player][0])
      requires (ny, nx) == NextHead(snakes[player][0], velocities[player])
      modifies this, board
      ensures Valid() && Model() == Slide(old(Model()), player)
    {
      ghost var w := Model();
      SlideParts(w, player);
      ghost var r := Slide(w, player);
      ghost var s := snakes[player];
      assert InBounds(height, width, s[|s| - 1]) by {
        if |s| > 1 {
          assert BodyOnBoard(w, player);
        }
      }
      PushAndVacate(player, ny, nx);
      assert Snapshot(board) == Vacate(w, player);
      assert snakes == r.snakes;
      var collided := IsCollision(ny, nx, {EMPTY, FRUIT, 2 * player});
      if collided {
        alive := alive[player := false];
        assert Snapshot(board) == r.board && alive == r.alive;
      } else {
        SetCell(ny, nx, 2 * player);
        assert Snapshot(board) == r.board && alive == r.alive;
      }
      assert fruit == w.fruit && velocities == w.velocities;
      assert Model() == w.(board := r.board, snakes := r.snakes, alive := r.alive);
    }

    /**
      The first half of `SlideTo`: push the new head, write the old head as
      body and the old tail as EMPTY, and pop the tail.
    */
    method PushAndVacate(player: int, ny: int, nx: int)
      requires board.Length0 == height && board.Length1 == width && player in snakes
      requires var s := snakes[player];
        |s| >= 1 && InBounds(height, width, s[0]) && InBounds(height, width, s[|s| - 1])
      modifies this, board
      ensures var s := old(snakes)[player];
        Snapshot(board) == Set(Set(old(Snapshot(board)), s[0], player), s[|s| - 1], EMPTY)
      ensures snakes == old(snakes)[player := ([(ny, nx)] + old(snakes)[player])[..|old(snakes)[player]|]]
      ensures fruit == old(fruit) && velocities == old(velocities) && alive == old(alive)
    {
      var snake := [(ny, nx)] + snakes[player];
      SetCell(snake[1].0, snake[1].1, player);
      var last := snake[|snake| - 1];
      SetCell(last.0, last.1, EMPTY);
      snakes := snakes[player := snake[..|snake| - 1]];
    }

    /** `step`: move the players in order, then respawn the fruit if one was eaten and nobody died. */
    method Step(pick: nat)
      requires Valid() && StepSafe(Model())
      modifies this, board
      ensures Valid() && Model() == Stepped(old(Model()), pick)
    {
      ghost var w := Model();
      var fruitWasEaten := false;
      for i := 0 to |PLAYERS|
        invariant Valid()
        invariant (Model(), fruitWasEaten) == MoveAll(w, PLAYERS[..i])
      {
        MoveAllNext(w, i);
        var ate := MoveSnake(PLAYERS[i]);
        fruitWasEaten := fruitWasEaten || ate;
      }
      assert PLAYERS[..|PLAYERS|] == PLAYERS;
      if !IsGameOver(alive) && fruitWasEaten {
        SpawnFruit(pick);
      }
    }
  }
}
