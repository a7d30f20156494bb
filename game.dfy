/**
 * The Minesweeper game engine: one object per game, holding the board, the
 * revealed and flagged state of every cell and the three counters the
 * presentation layer displays.
 */
module Minesweeper {
  import opened Board

  class Game {
    const difficulty: Difficulty
    const width: nat
    const height: nat
    const mines: nat

    /** The cells, row by row. */
    var board: seq<seq<Cell>>
    /** Which cells have been revealed, and which carry a flag. */
    var revealed: seq<seq<bool>>
    var flagged: seq<seq<bool>>

    /** Safe cells still to reveal before the game is won. */
    var buttonsToReveal: int
    /** The mine count shown to the player: mines less flags placed. */
    var mineCounter: int
    /** How many cells have been revealed. */
    var revealedButtons: int

    /** The board fits the preset: its size, its number of mines, and a
        correct count in every safe cell. */
    ghost predicate BoardValid()
      reads this`board
    {
      PresetOf(difficulty) == Preset(width, height, mines) &&
      IsGrid(board, height, width) &&
      |MinesOf(board)| == mines &&
      Numbered(board, height, width)
    }

    /** The revealed cells agree with the two counters about them, and every
        revealed zero cell outside `open` has had its cascade. */
    ghost predicate RevealedValid(open: set<(int, int)>)
      reads this`board, this`revealed, this`revealedButtons, this`buttonsToReveal
    {
      IsGrid(board, height, width) && IsGrid(revealed, height, width) &&
      revealedButtons == |TrueCells(revealed)| &&
      buttonsToReveal == height * width - mines - revealedButtons &&
      ZeroClosed(board, revealed, height, width, open)
    }

    /** The flags agree with the mine count shown. */
    ghost predicate FlagsValid()
      reads this`flagged, this`mineCounter
    {
      IsGrid(flagged, height, width) &&
      mineCounter == mines - |TrueCells(flagged)|
    }

    /** The game invariant, with the cascade still owed to the cells in
        `open`. */
    ghost predicate ValidExcept(open: set<(int, int)>)
      reads this
    {
      BoardValid() && RevealedValid(open) && FlagsValid()
    }

    ghost predicate Valid()
      reads this
    {
      ValidExcept({})
    }

    /** A new game of the given difficulty: the preset's dimensions, a board
        with exactly that many mines and correct numbers, nothing revealed
        or flagged. */
    constructor (difficulty: Difficulty)
      ensures Valid()
      ensures this.difficulty == difficulty
      ensures Preset(width, height, mines) == PresetOf(difficulty)
      ensures buttonsToReveal == height * width - mines && mineCounter == mines && revealedButtons == 0
      ensures revealed == Grid(height, width, false) && flagged == Grid(height, width, false)
    {
      this.difficulty := difficulty;
      var p := PresetOf(difficulty);
      width, height, mines := p.width, p.height, p.mines;
      buttonsToReveal := p.height * p.width - p.mines;
      mineCounter := p.mines;
      revealedButtons := 0;
      board := [];
      new;
      SetUpBoard();
      // The presentation layer's cells start neither revealed nor flagged.
      revealed := Grid(height, width, false);
      flagged := Grid(height, width, false);
      FreshGrids(height, width);
    }

    /** Builds the board as the constructor does: height empty rows, each
        filled with width zero cells, then the mines, then the numbers. */
    method SetUpBoard()
      requires board == [] && mines < height * width
      modifies this`board
      ensures IsGrid(board, height, width)
      ensures |MinesOf(board)| == mines
      ensures Numbered(board, height, width)
    {
      for i := 0 to height
        invariant board == seq(i, _ => [])
      {
        board := board + [[]];
      }
      FillGameBoard();
      forall i | 0 <= i < height ensures board[i] == Grid(height, width, Num(0))[i] {
        assert board[i] == [] + seq(width, _ => Num(0));
      }
      assert board == Grid(height, width, Num(0));
      FreshGrids(height, width);
      PlaceMines();
      ghost var placed := board;
      CalculateNumbers();
      NumberingIsNumbered(board, placed, height, width);
    }

    /** Appends width zero cells to every row. */
    method FillGameBoard()
      modifies this`board
      ensures |board| == old(|board|)
      ensures forall i :: 0 <= i < |board| ==> board[i] == old(board[i]) + seq(width, _ => Num(0))
    {
      ghost var b0 := board;
      for i := 0 to |board|
        invariant |board| == |b0|
        invariant forall k :: 0 <= k < i ==> board[k] == b0[k] + seq(width, _ => Num(0))
        invariant forall k :: i <= k < |board| ==> board[k] == b0[k]
      {
        for j := 0 to width
          invariant |board| == |b0|
          invariant board[i] == b0[i] + seq(j, _ => Num(0))
          invariant forall k :: 0 <= k < i ==> board[k] == b0[k] + seq(width, _ => Num(0))
          invariant forall k :: i < k < |board| ==> board[k] == b0[k]
        {
          board := board[i := board[i] + [Num(0)]];
        }
      }
    }

    /** Turns `mines` more cells into mines. Each round the source draws
        random positions until it finds one that is not yet a mine; the
        model takes that cell as an arbitrary free one. */
    method PlaceMines()
      requires IsGrid(board, height, width)
      requires |MinesOf(board)| + mines <= height * width
      modifies this`board
      ensures IsGrid(board, height, width)
      ensures old(MinesOf(board)) <= MinesOf(board)
      ensures |MinesOf(board)| == old(|MinesOf(board)|) + mines
      ensures forall r, c :: InBounds(height, width, r, c) && board[r][c] != Mine ==> board[r][c] == old(board[r][c])
    {
      ghost var b0 := board;
      for i := 0 to mines
        invariant IsGrid(board, height, width)
        invariant MinesOf(b0) <= MinesOf(board)
        invariant |MinesOf(board)| == |MinesOf(b0)| + i
        invariant forall r, c :: InBounds(height, width, r, c) && board[r][c] != Mine ==> board[r][c] == b0[r][c]
      {
        FreeCellExists(board, height, width);
        var row: int, col: int :| 0 <= row < height && 0 <= col < width && board[row][col] != Mine;
        LayMine(board, height, width, row, col);
        board := board[row := board[row][col := Mine]];
      }
    }

    /** Counts the mines among the in-bounds neighbours of (row, col). */
    method CountAdjacentMines(row: int, col: int) returns (count: nat)
      requires IsGrid(board, height, width)
      ensures count == AdjacentMines(board, height, width, row, col)
    {
      count := 0;
      for k := 0 to |Directions|
        invariant count == MinesAmong(board, height, width, row, col, k)
      {
        var (x, y) := Directions[k];
        var newRow, newCol := row + x, col + y;
        if newRow >= 0 && newRow < height && newCol >= 0 && newCol < width {
          if board[newRow][newCol] == Mine {
            count := count + 1;
          }
        }
      }
    }

    /** Writes into every non-mine cell the number of its mined neighbours. */
    method CalculateNumbers()
      requires IsGrid(board, height, width)
      modifies this`board
      ensures NumberingOf(board, old(board), height, width)
    {
      ghost var b0 := board;
      for row := 0 to height
        invariant IsGrid(board, height, width)
        invariant MinesOf(board) == MinesOf(b0)
        invariant forall r, c :: InBounds(height, width, r, c) ==>
          board[r][c] == if r < row then NumberedCell(b0, height, width, r, c) else b0[r][c]
      {
        for col := 0 to width
          invariant IsGrid(board, height, width)
          invariant MinesOf(board) == MinesOf(b0)
          invariant forall r, c :: InBounds(height, width, r, c) ==>
            board[r][c] == if r < row || (r == row && c < col) then NumberedCell(b0, height, width, r, c) else b0[r][c]
        {
          if board[row][col] != Mine {
            var n := CountAdjacentMines(row, col);
            SameMinesSameCount(board, b0, height, width, row, col);
            SetCell(board, row, col, Num(n));
            board := board[row := board[row][col := Num(n)]];
          }
        }
      }
    }

    /** As long as no mine has been revealed, the cells still to reveal run
        out exactly when every safe cell is revealed. */
    lemma WonMeansCleared()
      requires Valid() && TrueCells(revealed) !! MinesOf(board)
      ensures buttonsToReveal == 0 <==> Cells(height, width) - MinesOf(board) <= TrueCells(revealed)
    {
      WinMeansAllSafeRevealed(board, revealed, height, width, mines);
    }

    /** The mine count shown to the player. */
    function GetMineCounter(): (n: int)
      reads this
      requires Valid()
      ensures n == mines - |TrueCells(flagged)|
    {
      mineCounter
    }

    /** Reveals one unrevealed cell and does the counter bookkeeping that
        goes with it; `won` says whether this brought the cells still to
        reveal down to zero. */
    method Uncover(row: int, col: int, ghost open: set<(int, int)>) returns (won: bool)
      requires ValidExcept(open)
      requires InBounds(height, width, row, col) && !revealed[row][col]
      modifies this`revealed, this`revealedButtons, this`buttonsToReveal
      ensures ValidExcept(if board[row][col] == Num(0) then open + {(row, col)} else open)
      ensures revealed == old(revealed)[row := old(revealed)[row][col := true]] && revealed[row][col]
      ensures revealedButtons == old(revealedButtons) + 1
      ensures buttonsToReveal == old(buttonsToReveal) - 1
      ensures won <==> buttonsToReveal == 0
    {
      FlipCount(revealed, height, width, row, col);
      RevealKeepsZeroClosed(board, revealed, height, width, open, row, col);
      revealed := revealed[row := revealed[row][col := true]];
      revealedButtons := revealedButtons + 1;
      buttonsToReveal := buttonsToReveal - 1;
      won := buttonsToReveal == 0;
    }

    /** Left click: reveals (row, col) unless it is flagged or already
        revealed, and cascades from a zero cell. `won` and `lost` say whether
        the click ended the game; the decrement of the cells still to reveal
        happens before the mine check, so a mine counts against it too. */
    method HandleButtonClick(row: int, col: int) returns (won: bool, lost: bool)
      requires Valid()
      requires InBounds(height, width, row, col)
      modifies this`revealed, this`revealedButtons, this`buttonsToReveal
      ensures Valid()
      ensures old(flagged[row][col] || revealed[row][col]) ==>
        revealed == old(revealed) && revealedButtons == old(revealedButtons) &&
        buttonsToReveal == old(buttonsToReveal)
      ensures !old(flagged[row][col] || revealed[row][col]) ==> revealed[row][col]
      ensures !old(flagged[row][col] || revealed[row][col]) && board[row][col] != Num(0) ==>
        revealed == old(revealed)[row := old(revealed)[row][col := true]]
      ensures Grows(old(revealed), revealed, height, width)
      ensures forall r, c ::
        InBounds(height, width, r, c) && revealed[r][c] && !old(revealed[r][c]) && (r, c) != (row, col) ==>
        board[r][c] != Mine
      ensures revealedButtons == old(revealedButtons) + |TrueCells(revealed) - old(TrueCells(revealed))|
      ensures buttonsToReveal == old(buttonsToReveal) - |TrueCells(revealed) - old(TrueCells(revealed))|
      ensures won <==> old(buttonsToReveal) > 0 >= buttonsToReveal
      ensures lost <==> !old(flagged[row][col] || revealed[row][col]) && board[row][col] == Mine
      ensures Supported(board, old(revealed), revealed, height, width, row, col)
    {
      won, lost := false, false;
      ghost var before := TrueCells(revealed);
      if !flagged[row][col] {
        if !revealed[row][col] {
          var cell := board[row][col];
          won := Uncover(row, col, {});
          if cell == Num(0) {
            var more := RevealZeroCells(row, col, {});
            won := won || more;
          } else {
            SafelyGrowsRefl(board, revealed, height, width);
            SupportedRefl(board, revealed, height, width, row, col);
          }
          SupportedAfterMark(board, old(revealed), revealed, height, width, row, col);
          MarkThenGrow(board, old(revealed), revealed, height, width, row, col);
          if cell == Mine {
            lost := true;
          }
        } else {
          SupportedRefl(board, revealed, height, width, row, col);
        }
      } else {
        SupportedRefl(board, revealed, height, width, row, col);
      }
      GrowsSubset(old(revealed), revealed, height, width);
      SubsetSize(before, TrueCells(revealed));
    }

    /** The cascade from the revealed zero cell (row, col): every in-bounds
        neighbour is handed to RevealNeighbour, and none of them is a mine.
        Every cell it reveals leans on a zero cell: (row, col) or one the
        cascade revealed. `open` holds the cells whose cascades are still
        running further up. */
    method RevealZeroCells(row: int, col: int, ghost open: set<(int, int)>) returns (won: bool)
      requires ValidExcept(open + {(row, col)})
      requires InBounds(height, width, row, col) && revealed[row][col] && board[row][col] == Num(0)
      modifies this`revealed, this`revealedButtons, this`buttonsToReveal
      ensures ValidExcept(open)
      ensures Closed(revealed, height, width, row, col)
      ensures SafelyGrows(board, old(revealed), revealed, height, width)
      ensures revealedButtons >= old(revealedButtons)
      ensures won <==> old(buttonsToReveal) > 0 >= buttonsToReveal
      ensures Supported(board, old(revealed), revealed, height, width, row, col)
      decreases height * width - revealedButtons, 1
    {
      ghost var open' := open + {(row, col)};
      TrueCellsBound(revealed, height, width);
      SupportedRefl(board, revealed, height, width, row, col);
      won := false;
      for k := 0 to |Directions|
        invariant ValidExcept(open')
        invariant SafelyGrows(board, old(revealed), revealed, height, width)
        invariant revealedButtons >= old(revealedButtons)
        invariant won <==> old(buttonsToReveal) > 0 >= buttonsToReveal
        invariant Covered(revealed, height, width, row, col, k)
        invariant Supported(board, old(revealed), revealed, height, width, row, col)
      {
        var (x, y) := Directions[k];
        var newRow, newCol := row + x, col + y;
        assert (newRow, newCol) == Toward(row, col, k);
        if newRow >= 0 && newRow < height && newCol >= 0 && newCol < width {
          ghost var rev := revealed;
          DirectionAt(k);
          ZeroCellHasSafeNeighbours(board, height, width, row, col, newRow, newCol);
          var last := RevealNeighbour(newRow, newCol, row, col, open');
          won := won || last;
          SafelyGrowsTrans(board, old(revealed), rev, revealed, height, width);
          SupportedTrans(board, old(revealed), rev, revealed, height, width, row, col);
          CoveredGrows(rev, revealed, height, width, row, col, k);
        }
        CoveredStep(revealed, height, width, row, col, k);
      }
      CoveredAll(revealed, height, width, row, col);
      CloseCell(board, revealed, height, width, open, row, col);
    }

    /** One neighbour in a cascade from the zero cell (pr, pc): revealed,
        flagged or not, unless it already is, and the cascade goes on from
        it when it is zero. */
    method RevealNeighbour(row: int, col: int, ghost pr: int, ghost pc: int, ghost open: set<(int, int)>)
      returns (won: bool)
      requires ValidExcept(open)
      requires InBounds(height, width, row, col) && board[row][col] != Mine
      requires InBounds(height, width, pr, pc) && Adjacent(row, col, pr, pc) && board[pr][pc] == Num(0)
      modifies this`revealed, this`revealedButtons, this`buttonsToReveal
      ensures ValidExcept(open)
      ensures revealed[row][col]
      ensures SafelyGrows(board, old(revealed), revealed, height, width)
      ensures revealedButtons >= old(revealedButtons)
      ensures won <==> old(buttonsToReveal) > 0 >= buttonsToReveal
      ensures old(revealed[row][col]) ==>
        revealed == old(revealed) && revealedButtons == old(revealedButtons) &&
        buttonsToReveal == old(buttonsToReveal)
      ensures !old(revealed[row][col]) && board[row][col] != Num(0) ==>
        revealed == old(revealed)[row := old(revealed)[row][col := true]]
      ensures Supported(board, old(revealed), revealed, height, width, pr, pc)
      decreases height * width - revealedButtons, 0
    {
      won := false;
      var cell := board[row][col];
      if !revealed[row][col] {
        TrueCellsBound(revealed, height, width);
        MarkSafely(board, revealed, height, width, row, col);
        won := Uncover(row, col, open);
        ghost var mid := revealed;
        if cell == Num(0) {
          var more := RevealZeroCells(row, col, open);
          won := won || more;
          SafelyGrowsTrans(board, old(revealed), mid, revealed, height, width);
        } else {
          SafelyGrowsRefl(board, revealed, height, width);
          SupportedRefl(board, revealed, height, width, row, col);
        }
        SupportedByParent(board, old(revealed), revealed, height, width, row, col, pr, pc);
      } else {
        SafelyGrowsRefl(board, revealed, height, width);
        SupportedRefl(board, revealed, height, width, pr, pc);
      }
    }

    /** Right click: on an unrevealed cell, flips its flag and moves the
        mine count shown the other way; on a revealed cell, nothing. The
        count is not clamped and may fall below zero. */
    method HandleRightButtonClick(row: int, col: int)
      requires Valid()
      requires InBounds(height, width, row, col)
      modifies this`flagged, this`mineCounter
      ensures Valid()
      ensures old(revealed[row][col]) ==> flagged == old(flagged) && mineCounter == old(mineCounter)
      ensures !old(revealed[row][col]) ==>
        flagged == old(flagged)[row := old(flagged)[row][col := !old(flagged[row][col])]] &&
        mineCounter == old(mineCounter) + (if old(flagged[row][col]) then 1 else -1)
    {
      if !flagged[row][col] && !revealed[row][col] {
        FlipCount(flagged, height, width, row, col);
        flagged := flagged[row := flagged[row][col := true]];
        mineCounter := mineCounter - 1;
      } else if flagged[row][col] && !revealed[row][col] {
        FlipCount(flagged, height, width, row, col);
        flagged := flagged[row := flagged[row][col := false]];
        mineCounter := mineCounter + 1;
      }
    }
  }

  /** Right-clicking a cell twice leaves its flag and the mine count shown as
      they were. */
  method ToggleTwice(g: Game, row: int, col: int)
    requires g.Valid() && InBounds(g.height, g.width, row, col)
    modifies g`flagged, g`mineCounter
    ensures g.Valid()
    ensures g.flagged == old(g.flagged) && g.mineCounter == old(g.mineCounter)
    ensures g.revealed == old(g.revealed) && g.board == old(g.board)
  {
    ghost var f0 := g.flagged;
    g.HandleRightButtonClick(row, col);
    ghost var f1 := g.flagged;
    g.HandleRightButtonClick(row, col);
    if !g.revealed[row][col] {
      assert f1[row][col] == !f0[row][col];
      assert g.flagged[row] == f0[row];
    }
  }
}
