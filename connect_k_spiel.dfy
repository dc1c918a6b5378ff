/**
  The game-framework adapter for Connect-K: a state object wrapping a `TTT`
  engine, which exposes moves as integer actions (row-major cell numbers),
  reports TERMINAL once the board is full, turns the two scores into
  zero-sum returns, and an observer that renders the board as a one-hot
  tensor (opponent, current player, empty) from a player's point of view.
*/
module ConnectKSpiel {
  import opened Boards
  import opened Decimal
  import opened Spiel
  import opened ConnectK

  /** `pos2action`: the row-major number of a cell. */
  function PosToAction(cols: int, pos: Coord): int
  {
    cols * pos.0 + pos.1
  }

  /** `action2pos`: Python's `divmod(action, cols)`, the unique (row, col) with `row * cols + col == action` and `0 <= col < cols`. */
  function ActionToPos(cols: int, action: int): (pos: Coord)
    requires cols > 0
    ensures pos.0 * cols + pos.1 == action && 0 <= pos.1 < cols
  {
    // Python's floor division and modulo agree with Dafny's for a positive divisor.
    (action / cols, action % cols)
  }

  lemma ActionToPosOfPosToAction(cols: int, pos: Coord)
    requires cols > 0 && 0 <= pos.1 < cols
    ensures ActionToPos(cols, PosToAction(cols, pos)) == pos
  {
    var (r, c) := ActionToPos(cols, PosToAction(cols, pos));
    DivModUnique(cols, pos.0, pos.1, r, c);
  }

  lemma PosToActionOfActionToPos(cols: int, action: int)
    requires cols > 0
    ensures PosToAction(cols, ActionToPos(cols, action)) == action
  {
  }

  /** The quotient and remainder of a division by a positive number are unique. */
  lemma DivModUnique(cols: int, r: int, c: int, r': int, c': int)
    requires cols > 0 && 0 <= c < cols && 0 <= c' < cols
    requires r * cols + c == r' * cols + c'
    ensures r == r' && c == c'
  {
    MulMonotone(cols, r + 1, r');
    MulMonotone(cols, r' + 1, r);
    assert (r + 1) * cols == r * cols + cols;
    assert (r' + 1) * cols == r' * cols + cols;
  }

  lemma MulMonotone(cols: int, a: int, b: int)
    requires cols > 0
    ensures a <= b ==> a * cols <= b * cols
  {
    assert b * cols - a * cols == (b - a) * cols;
  }

  /** Row-major order of in-bounds cells is the numeric order of their action numbers. */
  lemma PosToActionMonotone(rows: int, cols: int, p: Coord, q: Coord)
    requires InBounds(rows, cols, p) && InBounds(rows, cols, q) && Before(p, q)
    ensures PosToAction(cols, p) < PosToAction(cols, q)
  {
    if p.0 < q.0 {
      MulMonotone(cols, p.0 + 1, q.0);
      assert cols * (p.0 + 1) == cols * p.0 + cols;
    }
  }

  /** An in-bounds cell gets a number in [0, rows * cols). */
  lemma PosToActionRange(rows: int, cols: int, p: Coord)
    requires InBounds(rows, cols, p)
    ensures 0 <= PosToAction(cols, p) < rows * cols
  {
    MulMonotone(cols, p.0 + 1, rows);
    assert cols * (p.0 + 1) == cols * p.0 + cols;
  }

  /** `[pos2action(p) for p in ps]`. */
  function EncodeAll(cols: int, ps: seq<Coord>): (r: seq<int>)
    ensures |r| == |ps| && forall i :: 0 <= i < |ps| ==> r[i] == PosToAction(cols, ps[i])
  {
    seq(|ps|, i requires 0 <= i < |ps| => PosToAction(cols, ps[i]))
  }

  predicate StrictlyIncreasing(s: seq<int>)
  {
    forall i, j :: 0 <= i < j < |s| ==> s[i] < s[j]
  }

  /**
    The encoded legal actions of a board are exactly the numbers in [0, rows * cols)
    whose cell is empty, in strictly increasing order (so without duplicates).
  */
  lemma EncodedEmptyCells(b: Board, rows: int, cols: int)
    requires IsBoard(b, rows, cols) && cols > 0
    ensures var acts := EncodeAll(cols, Positions(b, rows, cols, EMPTY, true));
      && StrictlyIncreasing(acts)
      && (forall a :: a in acts <==> EmptyAction(b, rows, cols, a))
  {
    var acts := EncodeAll(cols, Positions(b, rows, cols, EMPTY, true));
    forall i, j | 0 <= i < j < |acts|
      ensures acts[i] < acts[j]
    {
      EncodedOrdered(b, rows, cols, i, j);
    }
    forall a | a in acts
      ensures EmptyAction(b, rows, cols, a)
    {
      var i :| 0 <= i < |acts| && acts[i] == a;
      EncodedSound(b, rows, cols, i);
    }
    forall a | EmptyAction(b, rows, cols, a)
      ensures a in acts
    {
      EncodedComplete(b, rows, cols, a);
    }
  }

  /**
    Action number `a` names an empty cell of `b`. The cell of any `a` in
    [0, rows * cols) is on the board (`ActionToPosInRange`); saying so here
    spares the definition that arithmetic.
  */
  predicate EmptyAction(b: Board, rows: int, cols: int, a: int)
    requires IsBoard(b, rows, cols) && cols > 0
  {
    && 0 <= a < rows * cols
    && var p := ActionToPos(cols, a); InBounds(rows, cols, p) && b[p.0][p.1] == EMPTY
  }

  lemma EncodedOrdered(b: Board, rows: int, cols: int, i: int, j: int)
    requires IsBoard(b, rows, cols) && cols > 0
    requires 0 <= i < j < |Positions(b, rows, cols, EMPTY, true)|
    ensures var ps := Positions(b, rows, cols, EMPTY, true);
      PosToAction(cols, ps[i]) < PosToAction(cols, ps[j])
  {
    var ps := Positions(b, rows, cols, EMPTY, true);
    assert ps[i] in ps && ps[j] in ps;
    PosToActionMonotone(rows, cols, ps[i], ps[j]);
  }

  lemma EncodedSound(b: Board, rows: int, cols: int, i: int)
    requires IsBoard(b, rows, cols) && cols > 0
    requires 0 <= i < |Positions(b, rows, cols, EMPTY, true)|
    ensures EmptyAction(b, rows, cols, PosToAction(cols, Positions(b, rows, cols, EMPTY, true)[i]))
  {
    var ps := Positions(b, rows, cols, EMPTY, true);
    assert ps[i] in ps;
    PosToActionRange(rows, cols, ps[i]);
    ActionToPosOfPosToAction(cols, ps[i]);
  }

  lemma EncodedComplete(b: Board, rows: int, cols: int, a: int)
    requires IsBoard(b, rows, cols) && cols > 0 && 0 <= a < rows * cols
    requires var p := ActionToPos(cols, a); InBounds(rows, cols, p) && b[p.0][p.1] == EMPTY
    ensures a in EncodeAll(cols, Positions(b, rows, cols, EMPTY, true))
  {
    var ps := Positions(b, rows, cols, EMPTY, true);
    var p := ActionToPos(cols, a);
    var i :| 0 <= i < |ps| && ps[i] == p;
    PosToActionOfActionToPos(cols, a);
    assert EncodeAll(cols, ps)[i] == a;
  }

  /** Every number in [0, rows * cols) names an in-bounds cell. */
  lemma ActionToPosInRange(rows: int, cols: int, a: int)
    requires cols > 0 && 0 <= a < rows * cols
    ensures InBounds(rows, cols, ActionToPos(cols, a))
  {
    var (r, c) := ActionToPos(cols, a);
    MulMonotone(cols, r, -1);
    MulMonotone(cols, rows, r);
  }

  /**
    `returns`: [0, 0] while the game runs or when the scores tie; otherwise
    +1 for the player with the higher score and -1 for the other.
  */
  function ScoreReturns(over: bool, scores: seq<int>): (r: seq<int>)
    requires |scores| == 2
    ensures |r| == 2 && r[0] + r[1] == 0
    ensures r[0] == 1 <==> over && scores[0] > scores[1]
    ensures r[0] == -1 <==> over && scores[0] < scores[1]
    ensures r[0] == 0 <==> !over || scores[0] == scores[1]
  {
    if !over || scores[0] == scores[1] then [0, 0]
    else
      var p1 := if scores[0] > scores[1] then 1 else -1;
      [p1, -p1]
  }

  /** Swapping the seats swaps the returns: the outcome depends only on who scored more. */
  lemma ScoreReturnsSymmetric(over: bool, s0: int, s1: int)
    ensures ScoreReturns(over, [s1, s0]) == [ScoreReturns(over, [s0, s1])[1], ScoreReturns(over, [s0, s1])[0]]
  {
  }

  /** `PLAYERS_STR[player]`, with Python's negative indexing from the end. */
  function PlayerSymbol(player: int): (ch: char)
    requires -|PLAYERS_STR| <= player < |PLAYERS_STR|
    ensures ch == (if player == 0 || player == -3 then 'X' else if player == 1 || player == -2 then 'O' else ' ')
  {
    PLAYERS_STR[player % |PLAYERS_STR|]
  }

  /** Python's `str` of a pair of ints: `(r, c)`. */
  function PairToString(p: Coord): string
  {
    "(" + IntToString(p.0) + ", " + IntToString(p.1) + ")"
  }

  /** `_action_to_string`, e.g. `X(1, 2)` for player 0 and action 7 on a 5-column board. */
  function ActionToString(cols: int, player: int, action: int): (s: string)
    requires cols > 0 && -|PLAYERS_STR| <= player < |PLAYERS_STR|
    ensures |s| >= 7 && s[0] == PlayerSymbol(player) && s[1] == '(' && s[|s| - 1] == ')'
  {
    [PlayerSymbol(player)] + PairToString(ActionToPos(cols, action))
  }

  lemma PairToStringInjective(p: Coord, q: Coord)
    requires PairToString(p) == PairToString(q)
    ensures p == q
  {
    var b, d := " " + IntToString(p.1), " " + IntToString(q.1);
    PairToStringInner(p);
    PairToStringInner(q);
    IntToStringAvoids(p.0, ',');
    IntToStringAvoids(q.0, ',');
    SplitUnique(IntToString(p.0), b, IntToString(q.0), d, ',');
    assert IntToString(p.1) == b[1..] && IntToString(q.1) == d[1..];
    IntToStringInjective(p.0, q.0);
    IntToStringInjective(p.1, q.1);
  }

  /** Inside the parentheses: the row, a comma, then a space and the column. */
  lemma PairToStringInner(p: Coord)
    ensures var s := PairToString(p);
      |s| >= 2 && s[1..|s| - 1] == IntToString(p.0) + [','] + (" " + IntToString(p.1))
  {
    var a, b := IntToString(p.0), " " + IntToString(p.1);
    var s := PairToString(p);
    assert s == "(" + (a + [','] + b) + ")";
  }

  /** Different actions of the same player get different labels, and a label names its player's symbol. */
  lemma ActionToStringInjective(cols: int, player: int, a: int, b: int)
    requires cols > 0 && -|PLAYERS_STR| <= player < |PLAYERS_STR|
    requires ActionToString(cols, player, a) == ActionToString(cols, player, b)
    ensures a == b
  {
    var s, t := ActionToString(cols, player, a), ActionToString(cols, player, b);
    assert PairToString(ActionToPos(cols, a)) == s[1..];
    assert PairToString(ActionToPos(cols, b)) == t[1..];
    PairToStringInjective(ActionToPos(cols, a), ActionToPos(cols, b));
    PosToActionOfActionToPos(cols, a);
    PosToActionOfActionToPos(cols, b);
  }

  /**
    The observer's channel for a cell seen by `player`: 2 for an empty cell,
    otherwise 1 if the mark equals `player` and 0 if not.
  */
  function RelativeChannel(cell: int, player: int): (ch: int)
    ensures 0 <= ch <= 2
  {
    if cell == EMPTY then EMPTY else if cell == player then 1 else 0
  }

  /** For a seated player, the channel identifies the cell as empty, own mark or opponent's mark. */
  lemma RelativeChannelMeaning(cell: int, player: int)
    requires IsMark(cell) && (player == 0 || player == 1)
    ensures RelativeChannel(cell, player) == 2 <==> cell == EMPTY
    ensures RelativeChannel(cell, player) == 1 <==> cell == player
    ensures RelativeChannel(cell, player) == 0 <==> cell == 1 - player
  {
  }

  /** The two players see each mark in opposite channels and empty cells in the same one. */
  lemma RelativeChannelSwap(cell: int, player: int)
    requires IsMark(cell) && (player == 0 || player == 1)
    ensures cell != EMPTY ==> RelativeChannel(cell, 1 - player) == 1 - RelativeChannel(cell, player)
    ensures cell == EMPTY ==> RelativeChannel(cell, 1 - player) == RelativeChannel(cell, player)
  {
  }

  /** `_TTTState`: the engine plus the `_game_over` flag. */
  class TTTState {
    var gameOver: bool
    const game: TTT

    /** `_game_over` is false before the first move and equals `is_full` after every move. */
    ghost predicate Valid()
      reads this, game, game.board
    {
      game.Valid() && gameOver == (game.movesPlayed > 0 && game.IsFull())
    }

    constructor (rows: nat, cols: nat, toConnect: int)
      ensures Valid() && fresh(game) && fresh(game.board) && !gameOver
      ensures game.rows == rows && game.cols == cols && game.toConnect == toConnect
      ensures game.movesPlayed == 0 && game.nextPlayer == 0 && game.scores == [0, 0]
      ensures Snapshot(game.board) == Filled(rows, cols, EMPTY)
    {
      gameOver := false;
      game := new TTT(rows, cols, toConnect);
    }

    /** `current_player`: TERMINAL once the game is over, otherwise the engine's player to move. */
    function CurrentPlayer(): (p: PlayerId)
      reads this, game, game.board
      requires Valid()
      ensures p == Terminal <==> gameOver
      ensures !gameOver ==> p == Player(game.movesPlayed % 2)
    {
      if gameOver then Terminal else Player(game.nextPlayer)
    }

    /** `_legal_actions`: the action numbers of the engine's empty cells, in row-major order. */
    function LegalActions(): (acts: seq<int>)
      reads this, game, game.board
      requires game.board.Length0 == game.rows && game.board.Length1 == game.cols
      ensures acts == EncodeAll(game.cols, game.LegalActions())
    {
      EncodeAll(game.cols, game.LegalActions())
    }

    /** What the legal actions mean: every number in [0, rows * cols) whose cell is empty, increasing. */
    lemma LegalActionsAreEmptyCells()
      requires game.board.Length0 == game.rows && game.board.Length1 == game.cols && game.cols > 0
      ensures StrictlyIncreasing(LegalActions())
      ensures forall a :: a in LegalActions() <==>
        0 <= a < game.rows * game.cols && game.board[a / game.cols, a % game.cols] == EMPTY
    {
      EncodedEmptyCells(Snapshot(game.board), game.rows, game.cols);
      forall a | 0 <= a < game.rows * game.cols
        ensures InBounds(game.rows, game.cols, ActionToPos(game.cols, a))
      {
        ActionToPosInRange(game.rows, game.cols, a);
      }
    }

    /**
      `_apply_action`: decode the action, play it on the engine, and record
      whether the board is now full. The engine's own effects (the mark,
      the score, the turn) are those of `TTT.ApplyAction`.
    */
    method ApplyAction(action: int)
      requires Valid() && game.cols > 0
      requires 0 <= action < game.rows * game.cols
      // the cell is on the board by `ActionToPosInRange`; stated here so the contract reads it directly
      requires var p := ActionToPos(game.cols, action); InBounds(game.rows, game.cols, p) && game.board[p.0, p.1] == EMPTY
      modifies this, game, game.board
      ensures Valid()
      ensures gameOver == game.IsFull()
      ensures var p := ActionToPos(game.cols, action);
        && Snapshot(game.board) == Set(old(Snapshot(game.board)), p, old(game.nextPlayer))
        && game.movesPlayed == old(game.movesPlayed) + 1
        && game.nextPlayer == 1 - old(game.nextPlayer)
        && game.scores == old(game.scores)[old(game.nextPlayer) := old(game.scores)[old(game.nextPlayer)]
             + Points(Snapshot(game.board), game.rows, game.cols, p.1, p.0, game.toConnect)]
    {
      var pos := ActionToPos(game.cols, action);
      game.EmptyCellMeansNotFull(pos);
      game.ApplyAction(pos);
      gameOver := game.IsFull();
    }

    function IsTerminal(): (t: bool)
      reads this, game, game.board
      requires Valid()
      ensures t ==> game.IsFull()
      ensures game.movesPlayed > 0 ==> (t <==> game.IsFull())
    {
      gameOver
    }

    /** `returns`: zero-sum, nonzero only at the end of a game that is not tied. */
    function Returns(): (r: seq<int>)
      reads this, game, game.board
      requires Valid()
      ensures r == ScoreReturns(gameOver, game.scores)
    {
      ScoreReturns(gameOver, game.scores)
    }
  }

  /** `TTTObserver`: a (3, rows, cols) tensor of 0/1 values. */
  class TTTObserver {
    const rows: nat
    const cols: nat
    const tensor: array3<int>

    constructor (rows: nat, cols: nat)
      ensures this.rows == rows && this.cols == cols && fresh(tensor)
      ensures tensor.Length0 == 3 && tensor.Length1 == rows && tensor.Length2 == cols
      ensures forall ch, r, c :: 0 <= ch < 3 && 0 <= r < rows && 0 <= c < cols ==> tensor[ch, r, c] == 0
    {
      this.rows := rows;
      this.cols := cols;
      tensor := new int[3, rows, cols]((_, _, _) => 0);
    }

    /**
      `set_from(state, player)`: clear the tensor, then mark each cell in the
      channel `RelativeChannel` gives it for `player`.
    */
    method SetFrom(state: TTTState, player: int)
      requires state.Valid()
      requires tensor.Length0 == 3 && tensor.Length1 == rows && tensor.Length2 == cols
      requires state.game.rows == rows && state.game.cols == cols
      modifies tensor
      ensures forall ch, r, c :: 0 <= ch < 3 && 0 <= r < rows && 0 <= c < cols ==>
        tensor[ch, r, c] == (if ch == RelativeChannel(state.game.board[r, c], player) then 1 else 0)
    {
      var board := state.game.board;
      forall ch, r, c | 0 <= ch < 3 && 0 <= r < rows && 0 <= c < cols {
        tensor[ch, r, c] := 0;
      }
      for row := 0 to rows
        invariant forall ch, r, c :: 0 <= ch < 3 && 0 <= r < rows && 0 <= c < cols ==>
          tensor[ch, r, c] == (if r < row && ch == RelativeChannel(board[r, c], player) then 1 else 0)
      {
        for col := 0 to cols
          invariant forall ch, r, c :: 0 <= ch < 3 && 0 <= r < rows && 0 <= c < cols ==>
            tensor[ch, r, c] == (if (r < row || (r == row && c < col)) && ch == RelativeChannel(board[r, c], player) then 1 else 0)
        {
          var cellState := board[row, col];
          var cs := RelativeChannel(cellState, player);
          tensor[cs, row, col] := 1;
        }
      }
    }
  }
}
