/**
  The game-framework adapter for Snake. The framework is sequential, so a
  simultaneous tick is split into two prompts: player 0's direction is
  buffered, and player 1's prompt hands both directions to the engine and
  runs one `step`. Actions are the numbers 0..3 for the keys W, A, S, D.
  The observer renders the board as five indicator channels (own body,
  opposite body, own head, opposite head, fruit).

  Quirks of the adapter kept as they are:
  - after the first joint move `player` stays 1 and the buffered player-0
    direction is never cleared, so every later prompt is for player 1 and
    reuses that first direction (`SeatLock`);
  - `_game_over` is never set, so `current_player` never reports TERMINAL;
  - the observer takes its point of view from the state's `player`, not
    from its own `player` argument;
  - the observer's tensor is (5, width, height) while the board is
    (height, width), so only a square board can be copied into it.
*/
module SnakeSpiel {
  import opened Wrappers
  import opened Boards
  import opened Decimal
  import opened Spiel
  import opened SnakeGame

  /** `_MAX_MOVES`: the joint-move cap after which the state is terminal. */
  const MAX_MOVES := 100

  /** `_ACTION_NUMS`: action number i is the i-th key of `ACTIONS`. */
  const ACTION_KEYS: seq<string> := ["W", "A", "S", "D"]

  /** The key of a legal action number, and the direction it steers to. */
  function ActionKey(action: int): (key: string)
    requires 0 <= action < |ACTION_KEYS|
    ensures key in ACTIONS && |key| == 1
    ensures ACTIONS[key] == [UP, LEFT, DOWN, RIGHT][action]
  {
    ACTION_KEYS[action]
  }

  /** The numbering is a bijection between 0..3 and the keys of `ACTIONS`. */
  lemma ActionKeysNumberActions(key: string, a: int, b: int)
    requires 0 <= a < |ACTION_KEYS| && 0 <= b < |ACTION_KEYS|
    ensures |ACTION_KEYS| == |ACTIONS|
    ensures key in ACTIONS <==> key in ACTION_KEYS
    ensures ActionKey(a) == ActionKey(b) ==> a == b
  {
    assert ACTIONS.Keys == {"W", "A", "S", "D"};
    assert |ACTIONS.Keys| == 4 by {
      assert ACTIONS.Keys == {"W"} + {"A"} + {"S"} + {"D"};
    }
  }

  /** `_legal_actions`: every action number, whatever the player or the state. */
  function LegalActions(): (acts: seq<int>)
    ensures |acts| == |ACTIONS|
    ensures forall a :: a in acts <==> 0 <= a < |ACTION_KEYS|
  {
    ActionKeysNumberActions("W", 0, 0);
    [0, 1, 2, 3]
  }

  // ---------------------------------------------------------------------
  // The turn fields of the state

  /** The state's `player`, `_player0_action` and `_move_num`. */
  datatype Turn = Turn(player: int, buffered: Option<string>, moveNum: nat)

  const START_TURN := Turn(0, None, 0)

  /** Player 0 is to move exactly when nothing is buffered; this is what the asserts of `_apply_action` check. */
  predicate TurnOk(t: Turn)
  {
    && (t.player == 0 || t.player == 1)
    && (t.player == 0 <==> t.buffered.None?)
    && (t.buffered.Some? ==> t.buffered.value in ACTIONS)
  }

  /**
    `_apply_action` on the turn fields: the new fields, and the pair of
    keys handed to the engine, if any. Player 0's key is buffered and the
    turn passes to player 1; player 1's key is played together with the
    buffer, and the counter goes up, but neither `player` nor the buffer
    is reset.
  */
  function Prompt(t: Turn, key: string): (r: (Turn, Option<(string, string)>))
    requires TurnOk(t) && key in ACTIONS
    ensures TurnOk(r.0) && r.0.player == 1
    ensures r.1.None? <==> t.player == 0
    ensures r.0.moveNum == t.moveNum + (if t.player == 0 then 0 else 1)
    ensures r.1.Some? ==> r.1.value.1 == key && r.0.buffered == t.buffered
  {
    if t.player == 0 then (Turn(1, Some(key), t.moveNum), None)
    else (t.(moveNum := t.moveNum + 1), Some((t.buffered.value, key)))
  }

  predicate AllKeys(keys: seq<string>)
  {
    forall i :: 0 <= i < |keys| ==> keys[i] in ACTIONS
  }

  /** A fresh state prompted with `keys` in order: the turn fields, and the joint moves played, in order. */
  function Run(keys: seq<string>): (r: (Turn, seq<(string, string)>))
    requires AllKeys(keys)
    ensures TurnOk(r.0)
  {
    if |keys| == 0 then (START_TURN, [])
    else
      var (t, played) := Run(keys[..|keys| - 1]);
      var (t', joint) := Prompt(t, keys[|keys| - 1]);
      (t', if joint.Some? then played + [joint.value] else played)
  }

  /**
    The seat lock: after the first prompt every prompt is player 1's, the
    move counter equals the number of joint moves, and each joint move pairs
    the very first key (player 0's only choice) with the key just given.
  */
  lemma {:induction false} SeatLock(keys: seq<string>)
    requires AllKeys(keys) && |keys| >= 1
    ensures Run(keys).0 == Turn(1, Some(keys[0]), |keys| - 1)
    ensures |Run(keys).1| == |keys| - 1
    ensures forall i :: 0 <= i < |keys| - 1 ==> Run(keys).1[i] == (keys[0], keys[i + 1])
  {
    var init := keys[..|keys| - 1];
    if |keys| > 1 {
      assert AllKeys(init);
      SeatLock(init);
      assert init[0] == keys[0];
      forall i | 0 <= i < |keys| - 2
        ensures Run(keys).1[i] == (keys[0], keys[i + 1])
      {
        assert init[i + 1] == keys[i + 1];
      }
    }
  }

  /** Consequently the move cap is reached after `MAX_MOVES + 1` prompts, whoever is alive. */
  lemma MoveCapAfterPrompts(keys: seq<string>)
    requires AllKeys(keys)
    ensures Run(keys).0.moveNum >= MAX_MOVES <==> |keys| > MAX_MOVES
  {
    if |keys| >= 1 {
      SeatLock(keys);
    }
  }

  // ---------------------------------------------------------------------
  // What the engine sees

  /** Both heads are on the board, so the `step` of a joint move writes only cells on the board. */
  predicate HeadsOnBoard(w: World)
    requires Inv(w)
  {
    InBounds(w.height, w.width, w.snakes[PLAYER1][0]) && InBounds(w.height, w.width, w.snakes[PLAYER2][0])
  }

  /** Steering leaves the snakes where they are, so a world with both heads on the board can then take a `step`. */
  lemma SteeredIsSafe(w: World, key1: string, key2: string)
    requires Inv(w) && HeadsOnBoard(w) && key1 in ACTIONS && key2 in ACTIONS
    ensures StepSafe(Steered(Steered(w, PLAYER1, key1), PLAYER2, key2))
  {
    var w2 := Steered(Steered(w, PLAYER1, key1), PLAYER2, key2);
    assert w2.snakes == w.snakes && w2.height == w.height && w2.width == w.width;
  }

  /** A joint move: `make_move` for player 1 and for player 2, then one `step`. */
  function JointMove(w: World, key1: string, key2: string, pick: nat): (r: World)
    requires Inv(w) && HeadsOnBoard(w) && key1 in ACTIONS && key2 in ACTIONS
    ensures Inv(r) && r.height == w.height && r.width == w.width
    ensures r.velocities == map[PLAYER1 := ACTIONS[key1], PLAYER2 := ACTIONS[key2]]
  {
    var w1 := Steered(w, PLAYER1, key1);
    var w2 := Steered(w1, PLAYER2, key2);
    SteeredIsSafe(w, key1, key2);
    assert w2.velocities.Keys == {PLAYER1, PLAYER2};
    assert w2.velocities == map[PLAYER1 := ACTIONS[key1], PLAYER2 := ACTIONS[key2]];
    Stepped(w2, pick)
  }

  /** The returns of a state: zero-sum; +1 / -1 for the sole survivor's side once the game is over, else 0. */
  function SnakeReturns(alive: map<int, bool>): (r: seq<int>)
    requires PLAYER1 in alive && PLAYER2 in alive
    ensures |r| == 2 && r[0] + r[1] == 0
    ensures r[0] == 1 <==> IsGameOver(alive) && alive[PLAYER1]
    ensures r[0] == -1 <==> IsGameOver(alive) && alive[PLAYER2]
    ensures r[0] == 0 <==> !IsGameOver(alive) || (!alive[PLAYER1] && !alive[PLAYER2])
  {
    var p1 :=
      if !IsGameOver(alive) then 0
      else match Winner(alive)
        case None => 0
        case Some(winner) => if winner == PLAYER1 then 1 else -1;
    [p1, -p1]
  }

  /** Swapping which snake is alive swaps the two returns. */
  lemma SnakeReturnsSymmetric(alive: map<int, bool>)
    requires PLAYER1 in alive && PLAYER2 in alive
    ensures var swapped := map[PLAYER1 := alive[PLAYER2], PLAYER2 := alive[PLAYER1]];
      SnakeReturns(swapped) == [SnakeReturns(alive)[1], SnakeReturns(alive)[0]]
  {
    var swapped := map[PLAYER1 := alive[PLAYER2], PLAYER2 := alive[PLAYER1]];
    var r, s := SnakeReturns(alive), SnakeReturns(swapped);
    assert s[0] == r[1];
  }

  /** `_action_to_string`: the player number, a colon and the key, e.g. `0:W`. */
  function ActionToString(player: int, action: int): (s: string)
    requires 0 <= action < |ACTION_KEYS|
    ensures |s| >= 3 && s[|s| - 2] == ':' && s[|s| - 1..] == ActionKey(action)
  {
    IntToString(player) + ":" + ActionKey(action)
  }

  /** The string names both the player and the action. */
  lemma ActionToStringInjective(p: int, a: int, q: int, b: int)
    requires 0 <= a < |ACTION_KEYS| && 0 <= b < |ACTION_KEYS|
    requires ActionToString(p, a) == ActionToString(q, b)
    ensures p == q && a == b
  {
    IntToStringAvoids(p, ':');
    IntToStringAvoids(q, ':');
    assert ActionToString(p, a) == IntToString(p) + [':'] + ActionKey(a);
    assert ActionToString(q, b) == IntToString(q) + [':'] + ActionKey(b);
    SplitUnique(IntToString(p), ActionKey(a), IntToString(q), ActionKey(b), ':');
    IntToStringInjective(p, q);
    ActionKeysNumberActions("W", a, b);
  }

  /** The player can be read back from the string. */
  lemma ActionToStringRoundTrip(player: int, action: int)
    requires 0 <= action < |ACTION_KEYS|
    ensures ParseInt(ActionToString(player, action)[..|ActionToString(player, action)| - 2]) == player
  {
    var s := ActionToString(player, action);
    assert s[..|s| - 2] == IntToString(player);
    IntToStringRoundTrip(player);
  }

  // ---------------------------------------------------------------------
  // The state

  /** `_SnakeState`. */
  class SnakeState {
    var gameOver: bool
    const game: Snakes
    var player: int
    var player0Action: Option<string>
    var moveNum: nat

    function CurrentTurn(): Turn
      reads this
    {
      Turn(player, player0Action, moveNum)
    }

    /** `_game_over` stays false: nothing ever sets it. */
    ghost predicate Valid()
      reads this, game, game.board
    {
      game.Valid() && !gameOver && TurnOk(CurrentTurn())
    }

    /** A fresh state over `Snakes(width, height)`; `pick` is the engine's first fruit choice. */
    constructor (width: int, height: int, pick: nat)
      requires width >= 1 && height >= 1
      ensures Valid() && fresh(game) && fresh(game.board)
      ensures game.Model() == InitialWorld(width, height, pick)
      ensures CurrentTurn() == START_TURN
    {
      gameOver := false;
      game := new Snakes(width, height, pick);
      player := 0;
      player0Action := None;
      moveNum := 0;
    }

    /** `current_player`: TERMINAL only when `_game_over` is set, which it never is. */
    function CurrentPlayer(): (p: PlayerId)
      reads this
      ensures p == Terminal <==> gameOver
      ensures !gameOver ==> p == Player(player)
    {
      if gameOver then Terminal else Player(player)
    }

    /**
      `_apply_action`. Player 0's action is buffered and the engine is left
      alone; player 1's action is played with the buffered one as one joint
      move. The engine's `step` must only write cells on the board, which
      holds whenever both snakes are alive.
    */
    method ApplyAction(action: int, pick: nat)
      requires Valid() && 0 <= action < |ACTION_KEYS|
      requires player != 0 ==> HeadsOnBoard(game.Model())
      modifies this, game, game.board
      ensures Valid()
      ensures CurrentTurn() == Prompt(old(CurrentTurn()), ActionKey(action)).0
      ensures old(player) == 0 ==> game.Model() == old(game.Model())
      ensures old(player) != 0 ==>
        game.Model() == JointMove(old(game.Model()), old(player0Action).value, ActionKey(action), pick)
    {
      var key := ActionKey(action);
      if player == 0 {
        player0Action := Some(key);
        player := 1;
      } else {
        PlayJointMove(key, pick);
      }
    }

    /** The second half of `_apply_action`: both buffered keys go to the engine, which takes one `step`. */
    method PlayJointMove(key: string, pick: nat)
      requires Valid() && player == 1 && key in ACTIONS && HeadsOnBoard(game.Model())
      modifies this, game, game.board
      ensures Valid()
      ensures player == 1 && player0Action == old(player0Action) && moveNum == old(moveNum) + 1
      ensures gameOver == old(gameOver)
      ensures game.Model() == JointMove(old(game.Model()), old(player0Action).value, key, pick)
    {
      moveNum := moveNum + 1;
      ghost var w := game.Model();
      SteeredIsSafe(w, player0Action.value, key);
      game.MakeMove(PLAYER1, player0Action.value);
      game.MakeMove(PLAYER2, key);
      ghost var w2 := game.Model();
      assert w2 == Steered(Steered(w, PLAYER1, player0Action.value), PLAYER2, key);
      game.Step(pick);
      assert game.Model() == Stepped(w2, pick);
    }

    /** `is_terminal`: the engine's game is over, or the move cap is reached. */
    function IsTerminal(): (r: bool)
      reads this, game
      requires PLAYER1 in game.alive && PLAYER2 in game.alive
      ensures r <==> !(game.alive[PLAYER1] && game.alive[PLAYER2]) || moveNum >= MAX_MOVES
    {
      IsGameOver(game.alive) || moveNum >= MAX_MOVES
    }

    /** `returns`. */
    function Returns(): (r: seq<int>)
      reads this, game
      requires PLAYER1 in game.alive && PLAYER2 in game.alive
      ensures r == SnakeReturns(game.alive)
    {
      SnakeReturns(game.alive)
    }
  }

  // ---------------------------------------------------------------------
  // The observer

  /** The snake observed as "own": player 1's while the state's `player` is 0, otherwise player 2's. */
  function OwnSnake(statePlayer: int): (p: int)
    ensures IsPlayer(p) && (p == PLAYER1 <==> statePlayer == 0)
  {
    if statePlayer == 0 then PLAYER1 else PLAYER2
  }

  /** The board value each of the five channels indicates: own body, opposite body, own head, opposite head, fruit. */
  function ChannelValues(statePlayer: int): (v: seq<int>)
    ensures var own := OwnSnake(statePlayer);
      v == [own, -own, 2 * own, -2 * own, FRUIT]
  {
    var bodies := if statePlayer != 0 then [PLAYERS[1], PLAYERS[0]] else PLAYERS;
    var heads := if statePlayer != 0 then [HEAD_MARKS[1], HEAD_MARKS[0]] else HEAD_MARKS;
    bodies + heads + [FRUIT]
  }

  /** No board value lights two channels. */
  lemma ChannelValuesDistinct(statePlayer: int, i: int, j: int)
    requires 0 <= i < 5 && 0 <= j < 5 && i != j
    ensures ChannelValues(statePlayer)[i] != ChannelValues(statePlayer)[j]
  {
  }

  /** The two points of view differ by swapping the own and opposite channels. */
  lemma ChannelValuesSwap(i: int)
    requires 0 <= i < 5
    ensures var swap := [1, 0, 3, 2, 4];
      ChannelValues(1)[i] == ChannelValues(0)[swap[i]]
  {
  }

  /** `_SnakeObserver`: a zero-filled tensor of shape (5, width, height). */
  class SnakeObserver {
    const width: int
    const height: int
    const tensor: array3<int>

    constructor (width: nat, height: nat)
      ensures this.width == width && this.height == height && fresh(tensor)
      ensures tensor.Length0 == 5 && tensor.Length1 == width && tensor.Length2 == height
      ensures forall ch, i, j :: 0 <= ch < 5 && 0 <= i < width && 0 <= j < height ==> tensor[ch, i, j] == 0
    {
      this.width := width;
      this.height := height;
      tensor := new int[5, width, height]((ch, i, j) => 0);
    }

    /**
      `set_from`: clear the tensor, then make channel k the indicator of
      `board == ChannelValues(state.player)[k]`. The `player` argument is not
      used. A board that is not square cannot be copied into a
      (width, height) channel: then the result is false and the tensor stays
      all zero.
    */
    method SetFrom(state: SnakeState, player: int) returns (ok: bool)
      requires state.game.board.Length0 == height && state.game.board.Length1 == width
      requires tensor.Length0 == 5 && tensor.Length1 == width && tensor.Length2 == height
      modifies tensor
      ensures ok <==> width == height
      ensures forall ch, r, c :: 0 <= ch < 5 && 0 <= r < width && 0 <= c < height ==>
        tensor[ch, r, c] == (if ok && state.game.board[r, c] == ChannelValues(state.player)[ch] then 1 else 0)
    {
      forall ch, r, c | 0 <= ch < 5 && 0 <= r < width && 0 <= c < height {
        tensor[ch, r, c] := 0;
      }
      if width != height {
        return false;
      }
      var board := state.game.board;
      var values := ChannelValues(state.player);
      for idx := 0 to 5
        invariant forall ch, r, c :: 0 <= ch < 5 && 0 <= r < width && 0 <= c < height ==>
          tensor[ch, r, c] == (if ch < idx && board[r, c] == values[ch] then 1 else 0)
      {
        forall r, c | 0 <= r < width && 0 <= c < height {
          tensor[idx, r, c] := if board[r, c] == values[idx] then 1 else 0;
        }
      }
      return true;
    }
  }
}
