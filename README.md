# Four in a Row: game-state core

This project models the game state of a Connect-Four app written in Swift
for iOS. The red and the black player take turns on one device, each move
being a tap on a column button. The board conforms to GameplayKit's
game-model protocol (the move list, applying a move, the score, copying
the state), so that a minimax search could play one side, but these files
never create such a search. The model covers the board, the two players and
those game-model operations, and proves that each answers what the rules
of the game say it should.

- `Chips` (chip.dfy): the `Chip` enum (`none`, `red`, `black`) and its raw
  values.
- `Players` (player.dfy): a `Player` is determined by its chip. Its id,
  name and colour are functions of the chip. `AllPlayers` holds the two
  shared players, and `Opponent` looks a player up in it.
- `Grid` (grid.dfy): the board's slots as a value.
  - A flat sequence of 7 × 6 chips, column by column (slot
    `row + column * 6`), with row 0 at the bottom.
  - The specification functions: the lowest empty row, an open column, a
    full board, a drop, a run of four, a win, the score and the move list.
  - The lemmas that state what these mean.
  - The left-right mirror of a board. It is used only to prove that win
    detection is symmetric.
- `Board` (game_board.dfy): the class `GameBoard`, with the `slots` and
  `currentPlayer` fields its methods update in place.
  - Each Swift method becomes a method with the same loops, early returns
    and calls.
  - Each method is proved against the `Grid` functions.
  - `chip(inColumn:row:)` is the function `Grid.ChipAt`. Its behaviour is
    stated by `Grid.ReadAfterWrite` and `Board.GameBoard.Set`.
  - `doSquaresMatch` is the function `Grid.DoSquaresMatch`, which
    `IsWin` calls.

Swift's arrays are values, so `slots` is a `seq<Chip>` field that the
methods reassign. `setGameModel` therefore copies the state and does not
share it.

## Model

| member | source | states |
|---|---|---|
| Chips.Chip.RawValue | FourInARow/GameBoard.swift:13-17 | the raw value is in 0..2 and is 0 exactly for the empty chip |
| Chips.RawValueInjective | FourInARow/GameBoard.swift:13-17 | distinct chips have distinct raw values |
| Players.Player.PlayerId | FourInARow/Player.swift:23-25 | the id is in 0..2 and is 0 exactly when the chip is empty |
| Players.PlayerIdIsRawValue | FourInARow/Player.swift:23-25 | the id is the chip's raw value: red is 1 and black is 2 |
| Players.Player.Name | FourInARow/Player.swift:27-35 | every player has a non-empty display name |
| Players.Player.Colour | FourInARow/Player.swift:27-35 | the colour is red exactly when the chip is red |
| Players.NameAndColourByChip | FourInARow/Player.swift:27-35 | red gives "PLAYER ONE (RED)" and red; any other chip gives "AI (BLACK)" and black |
| Players.AllPlayersShape | FourInARow/Player.swift:21 | there are exactly two shared players: red first, black second, neither holding the empty chip |
| Players.Player.Opponent | FourInARow/Player.swift:41-48 | the opponent is a shared player with a real chip, and it differs from the player's own chip |
| Players.OpponentOfNonRed | FourInARow/Player.swift:41-48 | red's opponent is the second shared player; every other chip's, the empty one included, is the first |
| Players.OpponentInvolutive | FourInARow/Player.swift:41-48 | for both shared players, the opponent's opponent is the player itself, and the two chips differ |
| Grid.ChipAt | FourInARow/GameBoard.swift:117-119 | reads slot `row + column * 6`, where only that flat position has to be in range, so the answer is one of the chips the board holds (ReadAfterWrite states what it reads after a write) |
| Grid.IndexBijective | FourInARow/GameBoard.swift:112-119 | every grid cell has its own slot inside the 42-slot array |
| Grid.CellOfIndex | FourInARow/GameBoard.swift:112-119 | every slot position belongs to exactly one grid cell |
| Grid.ReadAfterWrite | FourInARow/GameBoard.swift:112-119 | after writing a cell, reading it gives the chip, and every other cell is unchanged |
| Grid.FirstEmptyRowSpec | FourInARow/GameBoard.swift:122-130 | the upward scan returns the smallest empty row at or above its start, and nil exactly when all those rows are occupied |
| Grid.LowestEmptyRowSpec | FourInARow/GameBoard.swift:122-130 | `nextEmptySlot` gives the smallest empty row, and nil exactly when the column is full |
| Grid.ColumnOpenIffEmptySlot | FourInARow/GameBoard.swift:133-135 | a move is possible in a column exactly when some row of it is empty |
| Grid.BoardFullIffNoEmptySlot | FourInARow/GameBoard.swift:145-155 | no column admits a move exactly when every slot holds a chip |
| Grid.Drop | FourInARow/GameBoard.swift:138-142 | a drop keeps the board at 42 slots |
| Grid.DropEffect | FourInARow/GameBoard.swift:138-142 | a drop writes the chip at (column, lowest empty row) and changes no other cell; a full column is left unchanged |
| Grid.DropKeepsOccupied | FourInARow/GameBoard.swift:138-142 | a drop never overwrites an occupied cell |
| Grid.DropPreservesGravity | FourInARow/GameBoard.swift:138-142 | if every column fills from the bottom before a drop, it still does after |
| Grid.DropRaisesLowestRow | FourInARow/GameBoard.swift:122-142 | under gravity, dropping a real chip into an open column raises its lowest empty row by one, or fills the column |
| Grid.OccupiedAfterWrite | FourInARow/GameBoard.swift:112-114 | putting a real chip into an empty slot adds exactly one occupied slot |
| Grid.DropCount | FourInARow/GameBoard.swift:138-142 | a drop of a real chip adds one chip to an open column and none to a full one |
| Grid.DoSquaresMatch | FourInARow/GameBoard.swift:182-197 | a match implies the fourth cell of the line is on the grid |
| Grid.SquaresMatchIsRun | FourInARow/GameBoard.swift:182-197 | from an on-grid start, `doSquaresMatch` holds exactly when all four cells along the vector are on the grid and hold the chip |
| Grid.RunOfFourWins | FourInARow/GameBoard.swift:158-180 | four cells of the chip in a line, in any of the four directions, make a win |
| Grid.WinHasRun | FourInARow/GameBoard.swift:158-180 | every win is witnessed by such a line: the two lemmas together characterise `isWin` |
| Grid.EmptyGridHasNoWin | FourInARow/GameBoard.swift:101-109 | the new board has 42 empty slots, satisfies gravity, and shows no win for a real chip |
| Grid.WinMonotone | FourInARow/GameBoard.swift:158-180 | a win stays a win when no occupied cell changes |
| Grid.DropPreservesWin | FourInARow/GameBoard.swift:138-180 | once a player has won, further drops cannot undo the win |
| Grid.ReverseRun | FourInARow/GameBoard.swift:182-197 | a run of four read from its far end is a run in the opposite direction |
| Grid.MirrorRun | FourInARow/GameBoard.swift:182-197 | the reflection of a run of four is a run with the horizontal step reversed |
| Grid.ReflectedRunWins | FourInARow/GameBoard.swift:158-180 | a reflected run in one of the four directions is again found by the win scan |
| Grid.MirrorKeepsWin | FourInARow/GameBoard.swift:158-180 | a win on a board is a win on its left-right mirror |
| Grid.MirrorWinIff | FourInARow/GameBoard.swift:158-180 | a player has won on a board exactly when they have won on its mirror |
| Grid.UtilityZeroSum | FourInARow/GameBoard.swift:200-214 | the scores of a player and their opponent are negatives of each other unless both have won, in which case both are 1000 |
| Grid.OpenColumnsSound | FourInARow/GameBoard.swift:58-68 | every listed move is an open column in range, and there are at most as many moves as columns |
| Grid.OpenColumnsAscending | FourInARow/GameBoard.swift:58-68 | listed columns strictly ascend, so none is listed twice |
| Grid.OpenColumnsComplete | FourInARow/GameBoard.swift:58-68 | every open column is listed |
| Grid.NoOpenColumns | FourInARow/GameBoard.swift:58-68 | the list is empty exactly when no column is open |
| Grid.NoMovesIffFull | FourInARow/GameBoard.swift:47-75 | on an undecided board, the move list is empty exactly when the board is full, that is, a draw |
| Grid.AllOpenColumns | FourInARow/GameBoard.swift:58-68 | when all columns are open, the moves are columns 0 to 6 in order |
| Grid.InitialPosition | FourInARow/GameBoard.swift:47-75 | at the start of a game, every column 0 to 6 is offered in order and the score is 0 |
| Board.GameBoard.constructor | FourInARow/GameBoard.swift:101-109 | a new board has 42 empty slots and red, the first shared player, to move |
| Board.GameBoard.Set | FourInARow/GameBoard.swift:112-114 | writes slot `row + column * 6` only, and reading the cell back gives the chip |
| Board.GameBoard.NextEmptySlot | FourInARow/GameBoard.swift:122-130 | returns the smallest empty row of the column, and nil exactly when every row is occupied |
| Board.GameBoard.CanMove | FourInARow/GameBoard.swift:133-135 | true exactly when `nextEmptySlot` is non-nil, that is, when the column has an empty row |
| Board.GameBoard.Add | FourInARow/GameBoard.swift:138-142 | the slots become the drop of the chip into the column, the player is unchanged, and gravity is preserved |
| Board.GameBoard.IsFull | FourInARow/GameBoard.swift:145-155 | true exactly when no column admits a move, that is, when every slot holds a chip |
| Board.GameBoard.IsWin | FourInARow/GameBoard.swift:158-180 | true exactly when some cell starts a match in one of the directions (1,0), (0,1), (1,1), (1,-1) |
| Board.GameBoard.Score | FourInARow/GameBoard.swift:200-214 | 1000 exactly on the player's own win, which takes precedence; otherwise -1000 exactly on the opponent's win; otherwise 0 |
| Board.GameBoard.GameModelUpdates | FourInARow/GameBoard.swift:47-75 | nil exactly when either player has won; otherwise the open columns, all of them, in strictly ascending order |
| Board.GameBoard.Apply | FourInARow/GameBoard.swift:77-86 | the mover's chip is dropped, the turn passes to the opponent, gravity is kept, and an open column gains exactly one chip |
| Board.GameBoard.SetGameModel | FourInARow/GameBoard.swift:38-45 | the receiver takes the other board's slots and current player, and the other board is unchanged |
| Board.GameBoard.CopyAsWritten | FourInARow/GameBoard.swift:32-36 | the copy is always a new game, whatever the receiver holds |
| Board.GameBoard.Copy | FourInARow/GameBoard.swift:32-36 | the intended copy is a fresh board with the receiver's slots and current player |
| Board.CopyLosesMove | FourInARow/GameBoard.swift:32-36 | after red plays column 0, the copy as written has lost the chip, while the intended copy keeps it |

## Left out

- GameplayKit plumbing is not modelled.
  - This covers the `players` and `activePlayer` getters and the protocol conformances.
  - The dynamic casts (`as?`, `as!`) are dropped because parameters are typed `Player` and `PossibleMove` directly. The nil branches those casts lead to therefore cannot arise.
  - The minimax search is a platform library and is not part of this model.
- `PossibleMove.value` is unused by the engine and is not modelled.
- Colours are an enum; `UIColor` values are not modelled.
- The view controller, with its animation, alerts and floating-point geometry, is not part of this model.
- The board size is fixed at 7 × 6. The source declares it with `static var`, but nothing reassigns it.
- Grid.DoSquaresMatch: requires the start cell to be on the grid.
  - The source checks only that the fourth cell is in range.
  - From an off-grid start, Swift would read a slot of another column or trap.
  - `isWin`, the only caller, always starts on the grid.
- Array-bounds traps are excluded by requires and not modelled. In Swift, an out-of-range flat position or column stops the program with an array-bounds trap (GameBoard.swift:113 and :118, reached from `nextEmptySlot` already at row 0). The model says nothing about that case:
  - Grid.ChipAt: requires the flat position `row + column * 6` to be in range.
  - Board.GameBoard.Set: requires the flat position to be in range.
  - Board.GameBoard.NextEmptySlot, Board.GameBoard.CanMove, Board.GameBoard.Add: require a column in 0..6.
  - Board.GameBoard.Apply: requires the move's column in 0..6.
- Swift's `Int` overflow traps are not modelled: every index computed from an in-range column and row is small.
- Grid.Mirror and its lemmas (MirrorColumns, MirrorColumnsAt, MirrorAt, Mirrored, MirrorIsMirrored, MirrorInvolutive) are a proof device for the symmetry of `isWin`, not source operations.

## Findings

| source | as written | input that shows it | evidently intended | confidence | as-written member | corrected member |
|---|---|---|---|---|---|---|
| FourInARow/GameBoard.swift:32-36 | `copy(with:)` calls `setGameModel` on the new board with the new board itself, so every copy is an empty board with red to move; the comment at line 31 ("Create and return an empty Board object to setGameModel") suggests the empty result may be meant for a caller that then sets the model itself | a new board after red plays column 0: the copy has no chip in (0, 0) | `copy.setGameModel(self)`, giving a copy of the receiver's slots and current player | medium (not executed): whether play suffers depends on whether GameplayKit calls `setGameModel` on the copy, and that code is not part of this repository | Board.GameBoard.CopyAsWritten, Board.CopyLosesMove | Board.GameBoard.Copy |
