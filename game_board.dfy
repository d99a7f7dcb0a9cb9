/**
 * The mutable game model of GameBoard.swift: a board object whose slot
 * array and current player its methods update in place. Each method does
 * what the Swift method does, step by step, and is proved against the
 * specification functions of `Grid`.
 */
module Board {
  import opened Chips
  import opened Players
  import opened Grid

  class GameBoard {
    /** The slots, column by column (`row + column * Rows`), row 0 at the bottom. */
    var slots: seq<Chip>
    /** The player whose turn it is. */
    var currentPlayer: Player

    /** Every board has the full number of slots and is played by one of the two shared players. */
    ghost predicate Valid()
      reads this
    {
      WellSized(slots) && currentPlayer in AllPlayers
    }

    /** A new game: every slot empty, red to move. */
    constructor ()
      ensures Valid()
      ensures slots == EmptyGrid
      ensures currentPlayer == AllPlayers[0]
    {
      var empty: seq<Chip> := [];
      for i := 0 to Columns * Rows
        invariant |empty| == i
        invariant forall j :: 0 <= j < i ==> empty[j] == None
      {
        empty := empty + [None];
      }
      currentPlayer := AllPlayers[0];
      slots := empty;
    }

    /**
     * `set(chip:in:row:)`: writes the slot at position `row + column * Rows`.
     * Only that position has to be in range; the pair itself is not checked.
     */
    method Set(chip: Chip, column: int, row: int)
      requires 0 <= Index(column, row) < |slots|
      modifies this
      ensures slots == old(slots)[Index(column, row) := chip]
      ensures currentPlayer == old(currentPlayer)
      ensures ChipAt(slots, column, row) == chip
      ensures forall i :: 0 <= i < |slots| && i != Index(column, row) ==> slots[i] == old(slots)[i]
    {
      slots := slots[Index(column, row) := chip];
    }

    /**
     * `nextEmptySlot(in:)`: scans the column upwards and returns the first
     * empty row, or nil when every row is occupied.
     */
    method NextEmptySlot(column: int) returns (r: Option<int>)
      requires WellSized(slots) && 0 <= column < Columns
      ensures r == LowestEmptyRow(slots, column)
      ensures r.Some? ==> 0 <= r.value < Rows && ChipAt(slots, column, r.value) == None
      ensures r.Some? ==> forall row :: 0 <= row < r.value ==> ChipAt(slots, column, row) != None
      ensures r.Nil? <==> forall row :: 0 <= row < Rows ==> ChipAt(slots, column, row) != None
    {
      LowestEmptyRowSpec(slots, column);
      for row := 0 to Rows
        invariant forall below :: 0 <= below < row ==> ChipAt(slots, column, below) != None
      {
        if ChipAt(slots, column, row) == None {
          return Some(row);
        }
      }
      return Nil;
    }

    /** `canMove(in:)`: the column still has an empty slot. */
    method CanMove(column: int) returns (b: bool)
      requires WellSized(slots) && 0 <= column < Columns
      ensures b == ColumnOpen(slots, column)
      ensures b <==> exists row :: 0 <= row < Rows && ChipAt(slots, column, row) == None
    {
      var next := NextEmptySlot(column);
      b := next != Nil;
      ColumnOpenIffEmptySlot(slots, column);
    }

    /**
     * `add(chip:in:)`: drops the chip into the lowest empty slot of the
     * column, and does nothing when the column is full. A board whose
     * columns fill from the bottom keeps doing so.
     */
    method Add(chip: Chip, column: int)
      requires WellSized(slots) && 0 <= column < Columns
      modifies this
      ensures slots == Drop(old(slots), chip, column)
      ensures currentPlayer == old(currentPlayer)
      ensures Gravity(old(slots)) ==> Gravity(slots)
    {
      ghost var before := slots;
      var next := NextEmptySlot(column);
      if next.Some? {
        Set(chip, column, next.value);
      }
      if Gravity(before) {
        DropPreservesGravity(before, chip, column);
      }
    }

    /** `isFull()`: no column admits a move, that is, every slot holds a chip. */
    method IsFull() returns (b: bool)
      requires WellSized(slots)
      ensures b == BoardFull(slots)
      ensures b <==> forall i :: 0 <= i < |slots| ==> slots[i] != None
    {
      BoardFullIffNoEmptySlot(slots);
      for column := 0 to Columns
        invariant forall c :: 0 <= c < column ==> !ColumnOpen(slots, c)
      {
        var open := CanMove(column);
        if open {
          return false;
        }
      }
      return true;
    }

    /**
     * `isWin(for:)`: visits the cells row by row and, in each, tries the
     * four directions; it answers true at the first run of four of the
     * player's chip.
     */
    method IsWin(p: Player) returns (b: bool)
      requires WellSized(slots)
      ensures b == HasFourInARow(slots, p.chip)
    {
      var chip := p.chip;
      for row := 0 to Rows
        invariant forall r, c :: 0 <= r < row && 0 <= c < Columns ==> !MatchAt(slots, chip, r, c)
      {
        for col := 0 to Columns
          invariant forall r, c :: 0 <= r < row && 0 <= c < Columns ==> !MatchAt(slots, chip, r, c)
          invariant forall c :: 0 <= c < col ==> !MatchAt(slots, chip, row, c)
        {
          if DoSquaresMatch(slots, chip, row, col, 1, 0) {
            assert MatchAt(slots, chip, row, col);
            return true;
          } else if DoSquaresMatch(slots, chip, row, col, 0, 1) {
            assert MatchAt(slots, chip, row, col);
            return true;
          } else if DoSquaresMatch(slots, chip, row, col, 1, 1) {
            assert MatchAt(slots, chip, row, col);
            return true;
          } else if DoSquaresMatch(slots, chip, row, col, 1, -1) {
            assert MatchAt(slots, chip, row, col);
            return true;
          }
        }
      }
      return false;
    }

    /** `score(for:)`: 1000 when the player has won, -1000 when its opponent has, 0 otherwise. */
    method Score(p: Player) returns (v: int)
      requires WellSized(slots)
      ensures v == Utility(slots, p)
      ensures v == 1000 <==> HasFourInARow(slots, p.chip)
      ensures v == -1000 <==> !HasFourInARow(slots, p.chip) && HasFourInARow(slots, p.Opponent().chip)
      ensures v == 0 <==> !HasFourInARow(slots, p.chip) && !HasFourInARow(slots, p.Opponent().chip)
    {
      var won := IsWin(p);
      if won {
        return 1000;
      }
      var lost := IsWin(p.Opponent());
      if lost {
        return -1000;
      }
      return 0;
    }

    /**
     * `gameModelUpdates(for:)`: nil once either player has won; otherwise
     * one move for each column that still has room, in ascending order.
     */
    method GameModelUpdates(p: Player) returns (r: Option<seq<PossibleMove>>)
      requires WellSized(slots)
      ensures r == LegalMoves(slots, p)
      ensures r.Nil? <==> HasFourInARow(slots, p.chip) || HasFourInARow(slots, p.Opponent().chip)
      ensures r.Some? ==> forall m :: m in r.value ==> 0 <= m.column < Columns && ColumnOpen(slots, m.column)
      ensures r.Some? ==> forall c :: 0 <= c < Columns && ColumnOpen(slots, c) ==> PossibleMove(c) in r.value
      ensures r.Some? ==> forall i, j :: 0 <= i < j < |r.value| ==> r.value[i].column < r.value[j].column
    {
      var won := IsWin(p);
      if !won {
        won := IsWin(p.Opponent());
      }
      if won {
        return Nil;
      }
      var moves: seq<PossibleMove> := [];
      for column := 0 to Columns
        invariant moves == OpenColumnsBelow(slots, column)
      {
        var open := CanMove(column);
        if open {
          moves := moves + [PossibleMove(column)];
        }
      }
      OpenColumnsSound(slots, Columns);
      OpenColumnsComplete(slots, Columns);
      OpenColumnsAscending(slots, Columns);
      return Some(moves);
    }

    /**
     * `apply(_:)`: the player to move drops a chip into the move's column,
     * then the turn passes to the opponent.
     */
    method Apply(move: PossibleMove)
      requires Valid() && 0 <= move.column < Columns
      modifies this
      ensures Valid()
      ensures slots == Drop(old(slots), old(currentPlayer).chip, move.column)
      ensures currentPlayer == old(currentPlayer).Opponent()
      ensures Gravity(old(slots)) ==> Gravity(slots)
      ensures Occupied(slots) == old(Occupied(slots)) + if ColumnOpen(old(slots), move.column) then 1 else 0
    {
      AllPlayersShape();
      DropCount(slots, currentPlayer.chip, move.column);
      Add(currentPlayer.chip, move.column);
      currentPlayer := currentPlayer.Opponent();
    }

    /** `setGameModel(_:)`: takes over the slots and the current player of another board. */
    method SetGameModel(board: GameBoard)
      requires board.Valid()
      modifies this
      ensures Valid()
      ensures slots == old(board.slots) && currentPlayer == old(board.currentPlayer)
      ensures board.slots == old(board.slots) && board.currentPlayer == old(board.currentPlayer)
    {
      slots := board.slots;
      currentPlayer := board.currentPlayer;
    }

    /**
     * `copy(with:)` as written: it builds a new board and sets the new
     * board's model from the new board itself, so the result is a new game
     * whatever the receiver holds.
     */
    method CopyAsWritten() returns (copy: GameBoard)
      ensures fresh(copy) && copy.Valid()
      ensures copy.slots == EmptyGrid && copy.currentPlayer == AllPlayers[0]
    {
      copy := new GameBoard();
      copy.SetGameModel(copy);
    }

    /** `copy(with:)` as intended: a new board holding the receiver's slots and current player. */
    method Copy() returns (copy: GameBoard)
      requires Valid()
      ensures fresh(copy) && copy.Valid()
      ensures copy.slots == slots && copy.currentPlayer == currentPlayer
    {
      copy := new GameBoard();
      copy.SetGameModel(this);
    }
  }

  /**
   * A board on which red has dropped one chip into column 0: the copy
   * `copy(with:)` makes of it as written has lost that chip, while the
   * intended copy keeps it.
   */
  method CopyLosesMove() returns (board: GameBoard, lost: GameBoard, kept: GameBoard)
    ensures board.Valid() && lost.Valid() && kept.Valid()
    ensures ChipAt(board.slots, 0, 0) == Red
    ensures ChipAt(lost.slots, 0, 0) == None && lost.slots != board.slots
    ensures kept.slots == board.slots && kept.currentPlayer == board.currentPlayer
  {
    board := new GameBoard();
    board.Apply(PossibleMove(0));
    DropEffect(EmptyGrid, Red, 0);
    assert LowestEmptyRow(EmptyGrid, 0) == Some(0);
    lost := board.CopyAsWritten();
    kept := board.Copy();
  }
}
