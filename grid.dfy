/**
 * The board's slots as a value: a flat sequence of `Columns * Rows` chips
 * laid out column by column (slot `row + column * Rows`), with row 0 at the
 * bottom. The queries of GameBoard.swift that only compute are functions
 * here; the ones the source writes as loops are specified here and
 * implemented by the methods of `Board.GameBoard`.
 */
module Grid {
  import opened Chips
  import opened Players

  /** Board width. */
  const Columns: int := 7
  /** Board height. */
  const Rows: int := 6

  /** Swift's optional: a row number, or `nil`. */
  datatype Option<T> = Nil | Some(value: T)

  /** A candidate move handed to the search framework: the column to drop a chip into. */
  datatype PossibleMove = PossibleMove(column: int)

  /** The four direction vectors a run of four may follow: right, up, up-right, down-right. */
  predicate IsDirection(moveX: int, moveY: int)
  {
    (moveX == 1 && moveY == 0) || (moveX == 0 && moveY == 1) ||
    (moveX == 1 && moveY == 1) || (moveX == 1 && moveY == -1)
  }

  predicate WellSized(s: seq<Chip>)
  {
    |s| == Columns * Rows
  }

  predicate InGrid(column: int, row: int)
  {
    0 <= column < Columns && 0 <= row < Rows
  }

  /** Position of cell (column, row) in the flat sequence. */
  function Index(column: int, row: int): int
  {
    row + column * Rows
  }

  /** Every cell of the grid has a position inside the slot sequence, and no two cells share one. */
  lemma IndexBijective(c1: int, r1: int, c2: int, r2: int)
    requires InGrid(c1, r1) && InGrid(c2, r2)
    ensures 0 <= Index(c1, r1) < Columns * Rows
    ensures Index(c1, r1) == Index(c2, r2) ==> c1 == c2 && r1 == r2
  {
  }

  /** The cell a flat position belongs to. */
  lemma CellOfIndex(i: int)
    requires 0 <= i < Columns * Rows
    ensures InGrid(i / Rows, i % Rows)
    ensures Index(i / Rows, i % Rows) == i
  {
  }

  /**
   * The chip in a slot (`chip(inColumn:row:)`); only the flat position has
   * to be in range. The answer is always one of the chips the board holds.
   */
  function ChipAt(s: seq<Chip>, column: int, row: int): (c: Chip)
    requires 0 <= Index(column, row) < |s|
    ensures c in s
  {
    s[Index(column, row)]
  }

  /**
   * Writing a slot of the grid and reading it back gives the written chip,
   * and every other cell of the grid keeps its chip.
   */
  lemma ReadAfterWrite(s: seq<Chip>, chip: Chip, column: int, row: int)
    requires WellSized(s) && InGrid(column, row)
    ensures ChipAt(s[Index(column, row) := chip], column, row) == chip
    ensures forall c, r :: InGrid(c, r) && (c != column || r != row) ==>
      ChipAt(s[Index(column, row) := chip], c, r) == ChipAt(s, c, r)
  {
    forall c, r | InGrid(c, r) && (c != column || r != row)
      ensures ChipAt(s[Index(column, row) := chip], c, r) == ChipAt(s, c, r)
    {
      IndexBijective(c, r, column, row);
    }
  }

  /** The board a new game starts from: every slot empty. */
  const EmptyGrid: seq<Chip> := seq(Columns * Rows, _ => None)

  /**
   * Gravity: in every column, an occupied slot only has occupied slots below it.
   */
  predicate Gravity(s: seq<Chip>)
  {
    WellSized(s) &&
    forall column, row :: 0 <= column < Columns && 0 <= row < Rows - 1 && ChipAt(s, column, row + 1) != None
      ==> ChipAt(s, column, row) != None
  }

  // ---------------------------------------------------------------------
  // Gravity placement: nextEmptySlot, canMove, add, isFull

  /** The lowest empty row of `column` at or above `from`, scanning upwards. */
  function FirstEmptyRow(s: seq<Chip>, column: int, from: int): Option<int>
    requires WellSized(s) && 0 <= column < Columns && 0 <= from <= Rows
    decreases Rows - from
  {
    if from == Rows then Nil
    else if ChipAt(s, column, from) == None then Some(from)
    else FirstEmptyRow(s, column, from + 1)
  }

  /**
   * The scan from `from` finds the smallest empty row at or above `from`,
   * and finds none exactly when all those rows are occupied.
   */
  lemma {:induction false} FirstEmptyRowSpec(s: seq<Chip>, column: int, from: int)
    requires WellSized(s) && 0 <= column < Columns && 0 <= from <= Rows
    ensures var r := FirstEmptyRow(s, column, from);
      && (r.Some? ==> from <= r.value < Rows && ChipAt(s, column, r.value) == None)
      && (r.Some? ==> forall row :: from <= row < r.value ==> ChipAt(s, column, row) != None)
      && (r.Nil? <==> forall row :: from <= row < Rows ==> ChipAt(s, column, row) != None)
    decreases Rows - from
  {
    if from < Rows && ChipAt(s, column, from) != None {
      FirstEmptyRowSpec(s, column, from + 1);
    }
  }

  /** What `nextEmptySlot` computes: the smallest empty row of the column, or nil when it is full. */
  function LowestEmptyRow(s: seq<Chip>, column: int): Option<int>
    requires WellSized(s) && 0 <= column < Columns
  {
    FirstEmptyRow(s, column, 0)
  }

  /**
   * `nextEmptySlot` returns the smallest row of the column whose chip is
   * `.none`, and nil exactly when every row of the column is occupied.
   */
  lemma LowestEmptyRowSpec(s: seq<Chip>, column: int)
    requires WellSized(s) && 0 <= column < Columns
    ensures var r := LowestEmptyRow(s, column);
      && (r.Some? ==> 0 <= r.value < Rows && ChipAt(s, column, r.value) == None)
      && (r.Some? ==> forall row :: 0 <= row < r.value ==> ChipAt(s, column, row) != None)
      && (r.Nil? <==> forall row :: 0 <= row < Rows ==> ChipAt(s, column, row) != None)
  {
    FirstEmptyRowSpec(s, column, 0);
  }

  /** What `canMove` computes: the column still has a free slot. */
  predicate ColumnOpen(s: seq<Chip>, column: int)
    requires WellSized(s) && 0 <= column < Columns
  {
    LowestEmptyRow(s, column).Some?
  }

  /** A column admits a move exactly when one of its slots is empty. */
  lemma ColumnOpenIffEmptySlot(s: seq<Chip>, column: int)
    requires WellSized(s) && 0 <= column < Columns
    ensures ColumnOpen(s, column) <==> exists row :: 0 <= row < Rows && ChipAt(s, column, row) == None
  {
    LowestEmptyRowSpec(s, column);
  }

  /** What `isFull` computes: no column admits a move. */
  predicate BoardFull(s: seq<Chip>)
    requires WellSized(s)
  {
    forall column :: 0 <= column < Columns ==> !ColumnOpen(s, column)
  }

  /** The board is full exactly when every one of its slots holds a chip. */
  lemma BoardFullIffNoEmptySlot(s: seq<Chip>)
    requires WellSized(s)
    ensures BoardFull(s) <==> forall i :: 0 <= i < |s| ==> s[i] != None
  {
    if BoardFull(s) {
      forall i | 0 <= i < |s| ensures s[i] != None {
        CellOfIndex(i);
        LowestEmptyRowSpec(s, i / Rows);
        assert !ColumnOpen(s, i / Rows);
        assert ChipAt(s, i / Rows, i % Rows) == s[i];
      }
    } else {
      var column :| 0 <= column < Columns && ColumnOpen(s, column);
      LowestEmptyRowSpec(s, column);
      var row := LowestEmptyRow(s, column).value;
      assert s[Index(column, row)] == None;
    }
  }

  /**
   * What `add(chip:in:)` does to the slots: the chip goes into the lowest
   * empty row of the column; a full column is left as it is.
   */
  function Drop(s: seq<Chip>, chip: Chip, column: int): (t: seq<Chip>)
    requires WellSized(s) && 0 <= column < Columns
    ensures WellSized(t)
  {
    LowestEmptyRowSpec(s, column);
    match LowestEmptyRow(s, column)
    case Nil => s
    case Some(row) => s[Index(column, row) := chip]
  }

  /**
   * A drop writes the chip at (column, lowest empty row) and changes no
   * other cell; on a full column it changes nothing.
   */
  lemma DropEffect(s: seq<Chip>, chip: Chip, column: int)
    requires WellSized(s) && 0 <= column < Columns
    ensures LowestEmptyRow(s, column).Nil? ==> Drop(s, chip, column) == s
    ensures forall c, r :: InGrid(c, r) ==>
      ChipAt(Drop(s, chip, column), c, r) ==
        if c == column && LowestEmptyRow(s, column) == Some(r) then chip else ChipAt(s, c, r)
  {
    var t := Drop(s, chip, column);
    LowestEmptyRowSpec(s, column);
    forall c, r | InGrid(c, r)
      ensures ChipAt(t, c, r) ==
        if c == column && LowestEmptyRow(s, column) == Some(r) then chip else ChipAt(s, c, r)
    {
      if LowestEmptyRow(s, column).Some? {
        IndexBijective(c, r, column, LowestEmptyRow(s, column).value);
      }
    }
  }

  /** A drop never changes an occupied cell. */
  lemma DropKeepsOccupied(s: seq<Chip>, chip: Chip, column: int)
    requires WellSized(s) && 0 <= column < Columns
    ensures forall c, r :: InGrid(c, r) && ChipAt(s, c, r) != None ==>
      ChipAt(Drop(s, chip, column), c, r) == ChipAt(s, c, r)
  {
    DropEffect(s, chip, column);
  }

  /** Dropping a chip keeps every column filled from the bottom. */
  lemma DropPreservesGravity(s: seq<Chip>, chip: Chip, column: int)
    requires Gravity(s) && 0 <= column < Columns
    ensures Gravity(Drop(s, chip, column))
  {
    var t := Drop(s, chip, column);
    DropEffect(s, chip, column);
    LowestEmptyRowSpec(s, column);
    forall c, r | 0 <= c < Columns && 0 <= r < Rows - 1 && ChipAt(t, c, r + 1) != None
      ensures ChipAt(t, c, r) != None
    {
      var low := LowestEmptyRow(s, column);
      if c == column && low.Some? && low.value == r + 1 {
        // the new chip lands on an occupied slot
        assert ChipAt(s, c, r) != None;
      }
    }
  }

  /** The number of slots holding a chip. */
  function Occupied(s: seq<Chip>): (n: nat)
    ensures n <= |s|
  {
    if s == [] then 0 else Occupied(s[..|s| - 1]) + (if s[|s| - 1] != None then 1 else 0)
  }

  /** Putting a real chip into an empty slot adds exactly one occupied slot. */
  lemma {:induction false} OccupiedAfterWrite(s: seq<Chip>, i: int, chip: Chip)
    requires 0 <= i < |s| && s[i] == None && chip != None
    ensures Occupied(s[i := chip]) == Occupied(s) + 1
    decreases |s|
  {
    var t := s[i := chip];
    if i == |s| - 1 {
      assert t[..|t| - 1] == s[..|s| - 1];
    } else {
      assert t[..|t| - 1] == s[..|s| - 1][i := chip];
      OccupiedAfterWrite(s[..|s| - 1], i, chip);
    }
  }

  /** A drop of a real chip adds one chip to the board when the column is open and none otherwise. */
  lemma DropCount(s: seq<Chip>, chip: Chip, column: int)
    requires WellSized(s) && 0 <= column < Columns && chip != None
    ensures Occupied(Drop(s, chip, column)) == Occupied(s) + (if ColumnOpen(s, column) then 1 else 0)
  {
    LowestEmptyRowSpec(s, column);
    if ColumnOpen(s, column) {
      var row := LowestEmptyRow(s, column).value;
      OccupiedAfterWrite(s, Index(column, row), chip);
    }
  }

  /**
   * With gravity, dropping a real chip into an open column moves that
   * column's lowest empty row up by exactly one (or fills the column).
   */
  lemma DropRaisesLowestRow(s: seq<Chip>, chip: Chip, column: int)
    requires Gravity(s) && 0 <= column < Columns
    requires chip != None && ColumnOpen(s, column)
    ensures var row := LowestEmptyRow(s, column).value;
      LowestEmptyRow(Drop(s, chip, column), column) == if row + 1 < Rows then Some(row + 1) else Nil
  {
    var row := LowestEmptyRow(s, column).value;
    var t := Drop(s, chip, column);
    DropEffect(s, chip, column);
    LowestEmptyRowSpec(s, column);
    LowestEmptyRowSpec(t, column);
    assert forall r :: 0 <= r <= row ==> ChipAt(t, column, r) != None;
    if row + 1 < Rows {
      assert ChipAt(s, column, row + 1) == None;
      assert ChipAt(t, column, row + 1) == None;
    }
  }

  // ---------------------------------------------------------------------
  // Four in a row: doSquaresMatch, isWin

  /** The cell is on the grid and holds `chip`. */
  predicate HoldsAt(s: seq<Chip>, chip: Chip, col: int, row: int)
    requires WellSized(s)
  {
    InGrid(col, row) && ChipAt(s, col, row) == chip
  }

  /**
   * The four cells of the line from (col, row) along (moveX, moveY) all lie
   * on the grid and all hold `chip`.
   */
  predicate RunOfFour(s: seq<Chip>, chip: Chip, col: int, row: int, moveX: int, moveY: int)
    requires WellSized(s)
  {
    HoldsAt(s, chip, col, row) &&
    HoldsAt(s, chip, col + moveX, row + moveY) &&
    HoldsAt(s, chip, col + moveX * 2, row + moveY * 2) &&
    HoldsAt(s, chip, col + moveX * 3, row + moveY * 3)
  }

  /**
   * `doSquaresMatch`: rejects the run whenever its fourth cell is off the
   * grid before reading any slot, and otherwise compares the four cells.
   */
  function DoSquaresMatch(s: seq<Chip>, initialChip: Chip, row: int, col: int, moveX: int, moveY: int): (b: bool)
    requires WellSized(s) && InGrid(col, row)
    ensures b ==> InGrid(col + moveX * 3, row + moveY * 3)
  {
    if row + moveY * 3 < 0 then false
    else if row + moveY * 3 >= Rows then false
    else if col + moveX * 3 < 0 then false
    else if col + moveX * 3 >= Columns then false
    else if ChipAt(s, col, row) != initialChip then false
    else if ChipAt(s, col + moveX, row + moveY) != initialChip then false
    else if ChipAt(s, col + moveX * 2, row + moveY * 2) != initialChip then false
    else ChipAt(s, col + moveX * 3, row + moveY * 3) == initialChip
  }

  /**
   * Checking that the fourth cell of the line is on the grid is enough:
   * `doSquaresMatch` holds exactly when all four cells are on the grid and
   * hold the chip.
   */
  lemma SquaresMatchIsRun(s: seq<Chip>, chip: Chip, row: int, col: int, moveX: int, moveY: int)
    requires WellSized(s) && InGrid(col, row)
    ensures DoSquaresMatch(s, chip, row, col, moveX, moveY) <==> RunOfFour(s, chip, col, row, moveX, moveY)
  {
    if InGrid(col + moveX * 3, row + moveY * 3) {
      assert InGrid(col + moveX, row + moveY) && InGrid(col + moveX * 2, row + moveY * 2);
    }
  }

  /** Some run of four starts at (col, row) in one of the four directions. */
  predicate MatchAt(s: seq<Chip>, chip: Chip, row: int, col: int)
    requires WellSized(s) && InGrid(col, row)
  {
    DoSquaresMatch(s, chip, row, col, 1, 0) ||
    DoSquaresMatch(s, chip, row, col, 0, 1) ||
    DoSquaresMatch(s, chip, row, col, 1, 1) ||
    DoSquaresMatch(s, chip, row, col, 1, -1)
  }

  /** What `isWin` computes: four of `chip` in a row somewhere on the board. */
  predicate HasFourInARow(s: seq<Chip>, chip: Chip)
    requires WellSized(s)
  {
    exists row, col | 0 <= row < Rows && 0 <= col < Columns :: MatchAt(s, chip, row, col)
  }

  /** Four cells in a line in any of the four directions, all holding `chip`, make a win. */
  lemma RunOfFourWins(s: seq<Chip>, chip: Chip, col: int, row: int, moveX: int, moveY: int)
    requires WellSized(s) && IsDirection(moveX, moveY)
    requires RunOfFour(s, chip, col, row, moveX, moveY)
    ensures HasFourInARow(s, chip)
  {
    SquaresMatchIsRun(s, chip, row, col, moveX, moveY);
    assert MatchAt(s, chip, row, col);
  }

  /** A win is witnessed by a run of four in one of the four directions. */
  lemma WinHasRun(s: seq<Chip>, chip: Chip)
    requires WellSized(s) && HasFourInARow(s, chip)
    ensures exists col, row, moveX, moveY :: InGrid(col, row) && IsDirection(moveX, moveY) && RunOfFour(s, chip, col, row, moveX, moveY)
  {
    var row, col :| 0 <= row < Rows && 0 <= col < Columns && MatchAt(s, chip, row, col);
    var d := if DoSquaresMatch(s, chip, row, col, 1, 0) then (1, 0)
      else if DoSquaresMatch(s, chip, row, col, 0, 1) then (0, 1)
      else if DoSquaresMatch(s, chip, row, col, 1, 1) then (1, 1)
      else (1, -1);
    SquaresMatchIsRun(s, chip, row, col, d.0, d.1);
    assert IsDirection(d.0, d.1) && RunOfFour(s, chip, col, row, d.0, d.1);
  }

  /** Nobody holding a real chip has won on the empty board. */
  lemma EmptyGridHasNoWin(chip: Chip)
    requires chip != None
    ensures WellSized(EmptyGrid) && Gravity(EmptyGrid)
    ensures !HasFourInARow(EmptyGrid, chip)
  {
    forall row, col | 0 <= row < Rows && 0 <= col < Columns
      ensures !MatchAt(EmptyGrid, chip, row, col)
    {
      assert ChipAt(EmptyGrid, col, row) == None;
    }
  }

  /** Wins only grow: a board that keeps every `chip` cell of another keeps its wins. */
  lemma WinMonotone(s: seq<Chip>, t: seq<Chip>, chip: Chip)
    requires WellSized(s) && WellSized(t)
    requires forall c, r :: InGrid(c, r) && ChipAt(s, c, r) == chip ==> ChipAt(t, c, r) == chip
    requires HasFourInARow(s, chip)
    ensures HasFourInARow(t, chip)
  {
    var row, col :| 0 <= row < Rows && 0 <= col < Columns && MatchAt(s, chip, row, col);
    assert MatchAt(t, chip, row, col);
  }

  /** Dropping a chip never takes a win away from a player. */
  lemma DropPreservesWin(s: seq<Chip>, drop: Chip, column: int, chip: Chip)
    requires WellSized(s) && 0 <= column < Columns && chip != None
    requires HasFourInARow(s, chip)
    ensures HasFourInARow(Drop(s, drop, column), chip)
  {
    DropKeepsOccupied(s, drop, column);
    WinMonotone(s, Drop(s, drop, column), chip);
  }

  /** The first `n` columns of the mirrored board: columns `Columns - 1` down to `Columns - n` of `s`. */
  function MirrorColumns(s: seq<Chip>, n: int): (t: seq<Chip>)
    requires WellSized(s) && 0 <= n <= Columns
    ensures |t| == Index(n, 0)
  {
    if n == 0 then []
    else MirrorColumns(s, n - 1) + s[Index(Columns - n, 0)..Index(Columns - n + 1, 0)]
  }

  /** The board seen in a mirror: column `c` becomes column `Columns - 1 - c`. */
  function Mirror(s: seq<Chip>): (t: seq<Chip>)
    requires WellSized(s)
    ensures WellSized(t)
  {
    MirrorColumns(s, Columns)
  }

  lemma {:induction false} MirrorColumnsAt(s: seq<Chip>, n: int, column: int, row: int)
    requires WellSized(s) && 0 <= n <= Columns
    requires 0 <= column < n && 0 <= row < Rows
    ensures ChipAt(MirrorColumns(s, n), column, row) == ChipAt(s, Columns - 1 - column, row)
  {
    var prev := MirrorColumns(s, n - 1);
    assert MirrorColumns(s, n) == prev + s[Index(Columns - n, 0)..Index(Columns - n + 1, 0)];
    if column < n - 1 {
      MirrorColumnsAt(s, n - 1, column, row);
    }
  }

  /** Cell (column, row) of the mirrored board is cell (Columns - 1 - column, row) of the board. */
  lemma MirrorAt(s: seq<Chip>, column: int, row: int)
    requires WellSized(s) && InGrid(column, row)
    ensures ChipAt(Mirror(s), column, row) == ChipAt(s, Columns - 1 - column, row)
  {
    MirrorColumnsAt(s, Columns, column, row);
  }

  /** `t` is `s` reflected left to right, cell by cell. */
  ghost predicate Mirrored(s: seq<Chip>, t: seq<Chip>)
    requires WellSized(s) && WellSized(t)
  {
    forall column, row :: InGrid(column, row) ==> ChipAt(t, column, row) == ChipAt(s, Columns - 1 - column, row)
  }

  /** Mirroring reflects every cell, and reflection is symmetric. */
  lemma MirrorIsMirrored(s: seq<Chip>)
    requires WellSized(s)
    ensures Mirrored(s, Mirror(s)) && Mirrored(Mirror(s), s)
  {
    forall column, row | InGrid(column, row)
      ensures ChipAt(Mirror(s), column, row) == ChipAt(s, Columns - 1 - column, row)
      ensures ChipAt(s, column, row) == ChipAt(Mirror(s), Columns - 1 - column, row)
    {
      MirrorAt(s, column, row);
      MirrorAt(s, Columns - 1 - column, row);
    }
  }

  /** Mirroring twice gives the board back. */
  lemma MirrorInvolutive(s: seq<Chip>)
    requires WellSized(s)
    ensures Mirror(Mirror(s)) == s
  {
    MirrorIsMirrored(s);
    MirrorIsMirrored(Mirror(s));
    forall i | 0 <= i < |s| ensures Mirror(Mirror(s))[i] == s[i] {
      CellOfIndex(i);
      assert Mirror(Mirror(s))[i] == ChipAt(Mirror(Mirror(s)), i / Rows, i % Rows);
    }
  }

  /** Reflecting a run of four gives a run of four whose horizontal step is reversed. */
  lemma MirrorRun(s: seq<Chip>, t: seq<Chip>, chip: Chip, col: int, row: int, moveX: int, moveY: int)
    requires WellSized(s) && WellSized(t) && Mirrored(s, t)
    requires RunOfFour(s, chip, col, row, moveX, moveY)
    ensures RunOfFour(t, chip, Columns - 1 - col, row, -moveX, moveY)
  {
    var c := Columns - 1 - col;
    assert InGrid(c, row) && InGrid(c + -moveX, row + moveY);
    assert InGrid(c + -moveX * 2, row + moveY * 2) && InGrid(c + -moveX * 3, row + moveY * 3);
  }

  /** A run of four read from its far end is a run of four in the opposite direction. */
  lemma ReverseRun(s: seq<Chip>, chip: Chip, col: int, row: int, moveX: int, moveY: int)
    requires WellSized(s) && RunOfFour(s, chip, col, row, moveX, moveY)
    ensures RunOfFour(s, chip, col + moveX * 3, row + moveY * 3, -moveX, -moveY)
  {
  }

  /**
   * A run of four whose horizontal step is the reverse of one of the four
   * directions is again a win: read from its other end unless it is
   * vertical, with the two diagonals exchanged.
   */
  lemma ReflectedRunWins(t: seq<Chip>, chip: Chip, col: int, row: int, moveX: int, moveY: int)
    requires WellSized(t) && IsDirection(moveX, moveY)
    requires RunOfFour(t, chip, col, row, -moveX, moveY)
    ensures HasFourInARow(t, chip)
  {
    if moveX == 0 {
      RunOfFourWins(t, chip, col, row, 0, moveY);
    } else {
      ReverseRun(t, chip, col, row, -1, moveY);
      RunOfFourWins(t, chip, col - 3, row + moveY * 3, 1, -moveY);
    }
  }

  /** A win shows up in the mirrored board. */
  lemma MirrorKeepsWin(s: seq<Chip>, t: seq<Chip>, chip: Chip)
    requires WellSized(s) && WellSized(t) && Mirrored(s, t) && HasFourInARow(s, chip)
    ensures HasFourInARow(t, chip)
  {
    WinHasRun(s, chip);
    var col, row, moveX, moveY :| InGrid(col, row) && IsDirection(moveX, moveY) && RunOfFour(s, chip, col, row, moveX, moveY);
    MirrorRun(s, t, chip, col, row, moveX, moveY);
    ReflectedRunWins(t, chip, Columns - 1 - col, row, moveX, moveY);
  }

  /** Four in a row is symmetric under the left-right reflection of the board. */
  lemma MirrorWinIff(s: seq<Chip>, chip: Chip)
    requires WellSized(s)
    ensures HasFourInARow(Mirror(s), chip) <==> HasFourInARow(s, chip)
  {
    MirrorIsMirrored(s);
    if HasFourInARow(s, chip) {
      MirrorKeepsWin(s, Mirror(s), chip);
    }
    if HasFourInARow(Mirror(s), chip) {
      MirrorKeepsWin(Mirror(s), s, chip);
    }
  }

  // ---------------------------------------------------------------------
  // Search-facing queries: score, gameModelUpdates

  /** What `score(for:)` computes: +1000 for a won board, -1000 for a lost one, 0 otherwise. */
  function Utility(s: seq<Chip>, p: Player): int
    requires WellSized(s)
  {
    if HasFourInARow(s, p.chip) then 1000
    else if HasFourInARow(s, p.Opponent().chip) then -1000
    else 0
  }

  /**
   * The utility is zero-sum between the two players on every board where
   * they have not both won; when both have, each scores its own win.
   */
  lemma UtilityZeroSum(s: seq<Chip>, p: Player)
    requires WellSized(s) && p in AllPlayers
    ensures !(HasFourInARow(s, p.chip) && HasFourInARow(s, p.Opponent().chip)) ==>
      Utility(s, p) == -Utility(s, p.Opponent())
    ensures HasFourInARow(s, p.chip) && HasFourInARow(s, p.Opponent().chip) ==>
      Utility(s, p) == Utility(s, p.Opponent()) == 1000
  {
    OpponentInvolutive(p);
  }

  /** The moves for the columns below `n` that still have room, in ascending column order. */
  function OpenColumnsBelow(s: seq<Chip>, n: int): seq<PossibleMove>
    requires WellSized(s) && 0 <= n <= Columns
  {
    if n == 0 then []
    else OpenColumnsBelow(s, n - 1) + (if ColumnOpen(s, n - 1) then [PossibleMove(n - 1)] else [])
  }

  /** Every entry of the move list is an open column below `n`. */
  lemma {:induction false} OpenColumnsSound(s: seq<Chip>, n: int)
    requires WellSized(s) && 0 <= n <= Columns
    ensures |OpenColumnsBelow(s, n)| <= n
    ensures forall m :: m in OpenColumnsBelow(s, n) ==> 0 <= m.column < n && ColumnOpen(s, m.column)
  {
    if n > 0 {
      OpenColumnsSound(s, n - 1);
    }
  }

  /** The columns of the move list strictly ascend, so none is listed twice. */
  lemma {:induction false} OpenColumnsAscending(s: seq<Chip>, n: int)
    requires WellSized(s) && 0 <= n <= Columns
    ensures var ms := OpenColumnsBelow(s, n);
      forall i, j :: 0 <= i < j < |ms| ==> ms[i].column < ms[j].column
  {
    if n > 0 {
      OpenColumnsAscending(s, n - 1);
      OpenColumnsSound(s, n - 1);
      var prev, ms := OpenColumnsBelow(s, n - 1), OpenColumnsBelow(s, n);
      assert ms == prev || ms == prev + [PossibleMove(n - 1)];
      forall i, j | 0 <= i < j < |ms| ensures ms[i].column < ms[j].column {
        if j == |prev| {
          assert ms[i] == prev[i];
          assert prev[i] in prev;
        }
      }
    }
  }

  /** Every open column below `n` is in the move list. */
  lemma {:induction false} OpenColumnsComplete(s: seq<Chip>, n: int)
    requires WellSized(s) && 0 <= n <= Columns
    ensures forall c :: 0 <= c < n && ColumnOpen(s, c) ==> PossibleMove(c) in OpenColumnsBelow(s, n)
  {
    if n > 0 {
      OpenColumnsComplete(s, n - 1);
    }
  }

  /**
   * What `gameModelUpdates(for:)` computes: nil once either player has won,
   * otherwise one move per open column.
   */
  function LegalMoves(s: seq<Chip>, p: Player): Option<seq<PossibleMove>>
    requires WellSized(s)
  {
    if HasFourInARow(s, p.chip) || HasFourInARow(s, p.Opponent().chip) then Nil
    else Some(OpenColumnsBelow(s, Columns))
  }

  /** The list of moves below `n` is empty exactly when none of those columns is open. */
  lemma {:induction false} NoOpenColumns(s: seq<Chip>, n: int)
    requires WellSized(s) && 0 <= n <= Columns
    ensures OpenColumnsBelow(s, n) == [] <==> forall c :: 0 <= c < n ==> !ColumnOpen(s, c)
  {
    if n > 0 {
      NoOpenColumns(s, n - 1);
    }
  }

  /** On an undecided board the move list is empty exactly when the board is full (a draw). */
  lemma NoMovesIffFull(s: seq<Chip>, p: Player)
    requires WellSized(s)
    requires !HasFourInARow(s, p.chip) && !HasFourInARow(s, p.Opponent().chip)
    ensures LegalMoves(s, p) == Some([]) <==> BoardFull(s)
  {
    NoOpenColumns(s, Columns);
  }

  /** When every column below `n` is open, the moves are exactly columns 0 to n - 1, in order. */
  lemma {:induction false} AllOpenColumns(s: seq<Chip>, n: int)
    requires WellSized(s) && 0 <= n <= Columns
    requires forall c :: 0 <= c < n ==> ColumnOpen(s, c)
    ensures |OpenColumnsBelow(s, n)| == n
    ensures forall i :: 0 <= i < n ==> OpenColumnsBelow(s, n)[i] == PossibleMove(i)
  {
    if n > 0 {
      AllOpenColumns(s, n - 1);
      var prev, ms := OpenColumnsBelow(s, n - 1), OpenColumnsBelow(s, n);
      assert ColumnOpen(s, n - 1);
      assert ms == prev + [PossibleMove(n - 1)];
      forall i | 0 <= i < n ensures ms[i] == PossibleMove(i) {
        if i < n - 1 {
          assert ms[i] == prev[i];
        }
      }
    }
  }

  /** At the start of a game every column is a legal move and nobody is scored as winning. */
  lemma InitialPosition(p: Player)
    requires p in AllPlayers
    ensures LegalMoves(EmptyGrid, p).Some?
    ensures var ms := LegalMoves(EmptyGrid, p).value;
      |ms| == Columns && forall i :: 0 <= i < Columns ==> ms[i] == PossibleMove(i)
    ensures Utility(EmptyGrid, p) == 0
  {
    EmptyGridHasNoWin(p.chip);
    EmptyGridHasNoWin(p.Opponent().chip);
    forall c | 0 <= c < Columns ensures ColumnOpen(EmptyGrid, c) {
      assert ChipAt(EmptyGrid, c, 0) == None;
    }
    AllOpenColumns(EmptyGrid, Columns);
  }
}
