/**
  The older copy of the Connect-K adapter. Its state object is the one in
  `ConnectKSpiel` (same encoding, legality, terminal test and returns)
  except that its action strings read the symbol table `_PLAYERS_STR` of
  its own engine module, taken here to equal `PLAYERS_STR`; so
  `ConnectKSpiel.TTTState` models both. What differs is the observer: it
  ignores the requesting player and uses the raw cell value as the channel,
  which is an absolute view of the board.
*/
module LegacyConnectKSpiel {
  import opened ConnectK
  import opened ConnectKSpiel

  /** The absolute view is the relative view of seat 1: a mark of 1 lands in channel 1, a mark of 0 in channel 0. */
  lemma AbsoluteIsSeatOneView(cell: int)
    requires IsMark(cell)
    ensures RelativeChannel(cell, 1) == cell
  {
  }

  /** For seat 0 the two views disagree on every mark: the absolute one is not player-relative. */
  lemma AbsoluteDiffersForSeatZero(cell: int)
    requires IsMark(cell) && cell != EMPTY
    ensures RelativeChannel(cell, 0) == 1 - cell && RelativeChannel(cell, 0) != cell
  {
  }

  /** The legacy `TTTObserver`: a (3, rows, cols) tensor of 0/1 values. */
  class LegacyTTTObserver {
    const rows: nat
    const cols: nat
    const tensor: array3<int>

    constructor (rows: nat, cols: nat)
      ensures this.rows == rows && this.cols == cols && fresh(tensor)
      ensures tensor.Length0 == 3 && tensor.Length1 == rows && tensor.Length2 == cols
      ensures forall ch, r, c :: 0 <= ch < 3 && 0 <= r < rows && 0 <= c < cols ==> tensor[ch, r, c] == 0
    {
      this.rows := rows;
      this.cols := cols;
      tensor := new int[3, rows, cols]((_, _, _) => 0);
    }

    /**
      `set_from(state, player)`: `player` is discarded; after clearing the
      tensor each cell is marked in the channel equal to its own value.
    */
    method SetFrom(state: TTTState, player: int)
      requires state.Valid()
      requires tensor.Length0 == 3 && tensor.Length1 == rows && tensor.Length2 == cols
      requires state.game.rows == rows && state.game.cols == cols
      modifies tensor
      ensures forall ch, r, c :: 0 <= ch < 3 && 0 <= r < rows && 0 <= c < cols ==>
        tensor[ch, r, c] == (if ch == state.game.board[r, c] then 1 else 0)
    {
      var board := state.game.board;
      forall ch, r, c | 0 <= ch < 3 && 0 <= r < rows && 0 <= c < cols {
        tensor[ch, r, c] := 0;
      }
      for row := 0 to rows
        invariant forall ch, r, c :: 0 <= ch < 3 && 0 <= r < rows && 0 <= c < cols ==>
          tensor[ch, r, c] == (if r < row && ch == board[r, c] then 1 else 0)
      {
        for col := 0 to cols
          invariant forall ch, r, c :: 0 <= ch < 3 && 0 <= r < rows && 0 <= c < cols ==>
            tensor[ch, r, c] == (if (r < row || (r == row && c < col)) && ch == board[r, c] then 1 else 0)
        {
          var cellState := board[row, col];
          tensor[cellState, row, col] := 1;
        }
      }
    }
  }
}
