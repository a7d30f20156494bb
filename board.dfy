/**
 * The value side of the Minesweeper board engine: cells, difficulty presets,
 * the eight neighbour directions, the sets of grid positions a board or a
 * flag grid describes, and the facts about neighbour counts that the game
 * engine relies on.
 *
 * Positions are (row, column) pairs; a grid is a sequence of rows.
 */
module Board {

  /** A cell of the board: a mine, or a number. Before the counts are
      computed every non-mine cell holds Num(0). */
  datatype Cell = Mine | Num(n: nat)

  /** The three recognised difficulty names. */
  datatype Difficulty = Beginner | Intermediate | Expert

  /** The dimensions and mine count a difficulty fixes. */
  datatype Preset = Preset(width: nat, height: nat, mines: nat)

  /** The preset table. Placing mines by rejection sampling only ends when
      there is a free cell left for every mine, which every preset leaves. */
  function PresetOf(d: Difficulty): (p: Preset)
    ensures 0 < p.mines < p.width * p.height
    ensures d == Beginner ==> p == Preset(9, 9, 10)
    ensures d == Intermediate ==> p == Preset(16, 16, 40)
    ensures d == Expert ==> p == Preset(20, 24, 99)
  {
    match d
    case Beginner => Preset(9, 9, 10)
    case Intermediate => Preset(16, 16, 40)
    case Expert => Preset(20, 24, 99)
  }

  /** The eight (row, column) offsets of a cell's neighbours, in the order
      the engine visits them. */
  const Directions: seq<(int, int)> :=
    [(-1, -1), (-1, 0), (-1, 1),
     (0, -1),           (0, 1),
     (1, -1),  (1, 0),  (1, 1)]

  /** (r, c) lies on an h-by-w grid. */
  predicate InBounds(h: int, w: int, r: int, c: int) {
    0 <= r < h && 0 <= c < w
  }

  /** (r2, c2) is one of the up to eight cells around (r, c). */
  predicate Adjacent(r: int, c: int, r2: int, c2: int) {
    -1 <= r2 - r <= 1 && -1 <= c2 - c <= 1 && (r2, c2) != (r, c)
  }

  /** g has h rows of w entries each. */
  predicate IsGrid<T>(g: seq<seq<T>>, h: nat, w: nat) {
    |g| == h && forall r :: 0 <= r < h ==> |g[r]| == w
  }

  /** The h-by-w grid holding x everywhere. */
  function Grid<T>(h: nat, w: nat, x: T): (g: seq<seq<T>>)
    ensures IsGrid(g, h, w)
    ensures forall r, c :: InBounds(h, w, r, c) ==> g[r][c] == x
  {
    seq(h, _ => seq(w, _ => x))
  }

  /** The positions of rows r0..r1-1 and columns c0..c1-1. */
  ghost function Rect(r0: int, r1: int, c0: int, c1: int): set<(int, int)> {
    set r, c | r0 <= r < r1 && c0 <= c < c1 :: (r, c)
  }

  /** All positions of an h-by-w grid. */
  ghost function Cells(h: nat, w: nat): set<(int, int)> {
    Rect(0, h, 0, w)
  }

  /** The in-bounds neighbours of (r, c). */
  ghost function Neighbours(h: nat, w: nat, r: int, c: int): set<(int, int)> {
    set r2, c2 | 0 <= r2 < h && 0 <= c2 < w && Adjacent(r, c, r2, c2) :: (r2, c2)
  }

  /** The positions of the mines on a board. */
  ghost function MinesOf(b: seq<seq<Cell>>): set<(int, int)> {
    set r, c | 0 <= r < |b| && 0 <= c < |b[r]| && b[r][c] == Mine :: (r, c)
  }

  /** The positions a boolean grid (revealed or flagged) marks. */
  ghost function TrueCells(g: seq<seq<bool>>): set<(int, int)> {
    set r, c | 0 <= r < |g| && 0 <= c < |g[r]| && g[r][c] :: (r, c)
  }

  /** Every position marked in g0 is marked in g1. */
  ghost predicate Grows(g0: seq<seq<bool>>, g1: seq<seq<bool>>, h: nat, w: nat)
    requires IsGrid(g0, h, w) && IsGrid(g1, h, w)
  {
    forall r, c :: InBounds(h, w, r, c) && g0[r][c] ==> g1[r][c]
  }

  /** Every in-bounds neighbour of (r, c) is marked in rev. */
  ghost predicate Closed(rev: seq<seq<bool>>, h: nat, w: nat, r: int, c: int)
    requires IsGrid(rev, h, w)
  {
    forall r2, c2 :: InBounds(h, w, r2, c2) && Adjacent(r, c, r2, c2) ==> rev[r2][c2]
  }

  /** Every revealed zero cell outside `open` has all its neighbours
      revealed. `open` holds the zero cells whose cascade is under way. */
  ghost predicate ZeroClosed(b: seq<seq<Cell>>, rev: seq<seq<bool>>, h: nat, w: nat, open: set<(int, int)>)
    requires IsGrid(b, h, w) && IsGrid(rev, h, w)
  {
    forall r, c :: InBounds(h, w, r, c) && rev[r][c] && b[r][c] == Num(0) && (r, c) !in open ==>
      Closed(rev, h, w, r, c)
  }

  /** Revealing one more cell keeps every closed cell closed; the new cell
      is owed a cascade when it is a zero. */
  lemma RevealKeepsZeroClosed(b: seq<seq<Cell>>, rev: seq<seq<bool>>, h: nat, w: nat,
                              open: set<(int, int)>, r: int, c: int)
    requires IsGrid(b, h, w) && IsGrid(rev, h, w) && InBounds(h, w, r, c)
    requires ZeroClosed(b, rev, h, w, open)
    ensures IsGrid(rev[r := rev[r][c := true]], h, w)
    ensures ZeroClosed(b, rev[r := rev[r][c := true]], h, w, if b[r][c] == Num(0) then open + {(r, c)} else open)
  {
    var rev' := rev[r := rev[r][c := true]];
    var open' := if b[r][c] == Num(0) then open + {(r, c)} else open;
    forall r1, c1 | InBounds(h, w, r1, c1) && rev'[r1][c1] && b[r1][c1] == Num(0) && (r1, c1) !in open'
      ensures Closed(rev', h, w, r1, c1)
    {
      assert rev[r1][c1];
      assert Closed(rev, h, w, r1, c1);
    }
  }

  /** Finishing the cascade of p closes p. */
  lemma CloseCell(b: seq<seq<Cell>>, rev: seq<seq<bool>>, h: nat, w: nat,
                  open: set<(int, int)>, r: int, c: int)
    requires IsGrid(b, h, w) && IsGrid(rev, h, w)
    requires ZeroClosed(b, rev, h, w, open + {(r, c)}) && Closed(rev, h, w, r, c)
    ensures ZeroClosed(b, rev, h, w, open)
  {
  }

  // ---------------------------------------------------------------------
  // Neighbour counts
  // ---------------------------------------------------------------------

  /** The cell at p is on the board and is a mine. */
  predicate MineAt(b: seq<seq<Cell>>, h: nat, w: nat, p: (int, int))
    requires IsGrid(b, h, w)
  {
    InBounds(h, w, p.0, p.1) && b[p.0][p.1] == Mine
  }

  /** The cell that direction k leads to from (r, c). */
  function Toward(r: int, c: int, k: nat): (int, int)
    requires k < |Directions|
  {
    (r + Directions[k].0, c + Directions[k].1)
  }

  /** How many of the first k directions lead from (r, c) to a mine. */
  function MinesAmong(b: seq<seq<Cell>>, h: nat, w: nat, r: int, c: int, k: nat): nat
    requires IsGrid(b, h, w) && k <= |Directions|
  {
    if k == 0 then 0
    else MinesAmong(b, h, w, r, c, k - 1) + (if MineAt(b, h, w, Toward(r, c, k - 1)) then 1 else 0)
  }

  /** The count the engine stores in a non-mine cell. */
  function AdjacentMines(b: seq<seq<Cell>>, h: nat, w: nat, r: int, c: int): nat
    requires IsGrid(b, h, w)
  {
    MinesAmong(b, h, w, r, c, |Directions|)
  }

  /** The mined cells reached from (r, c) by the first k directions. */
  ghost function MinedOffsets(b: seq<seq<Cell>>, h: nat, w: nat, r: int, c: int, k: nat): set<(int, int)>
    requires IsGrid(b, h, w) && k <= |Directions|
  {
    set i | 0 <= i < k && MineAt(b, h, w, Toward(r, c, i)) :: Toward(r, c, i)
  }

  /** The direction that leads to (dr, dc). */
  function DirectionIndex(dr: int, dc: int): (k: nat)
    requires -1 <= dr <= 1 && -1 <= dc <= 1 && (dr, dc) != (0, 0)
    ensures k < |Directions| && Directions[k] == (dr, dc)
  {
    if dr == -1 then (if dc == -1 then 0 else if dc == 0 then 1 else 2)
    else if dr == 0 then (if dc == -1 then 3 else 4)
    else (if dc == -1 then 5 else if dc == 0 then 6 else 7)
  }

  /** Direction k leads to an adjacent cell, and DirectionIndex finds k
      again from it; so no two directions lead to the same cell. */
  lemma DirectionAt(k: nat)
    requires k < |Directions|
    ensures -1 <= Directions[k].0 <= 1 && -1 <= Directions[k].1 <= 1 && Directions[k] != (0, 0)
    ensures DirectionIndex(Directions[k].0, Directions[k].1) == k
  {
    if k == 0 {} else if k == 1 {} else if k == 2 {} else if k == 3 {}
    else if k == 4 {} else if k == 5 {} else if k == 6 {} else {}
  }

  /** Taking one more direction adds its cell when that cell is a mine. */
  lemma MinedOffsetsStep(b: seq<seq<Cell>>, h: nat, w: nat, r: int, c: int, k: nat)
    requires IsGrid(b, h, w) && 0 < k <= |Directions|
    ensures MinedOffsets(b, h, w, r, c, k) ==
      MinedOffsets(b, h, w, r, c, k - 1) + (if MineAt(b, h, w, Toward(r, c, k - 1)) then {Toward(r, c, k - 1)} else {})
  {
  }

  /** The cell of direction k is not reached by any earlier direction. */
  lemma TowardFresh(b: seq<seq<Cell>>, h: nat, w: nat, r: int, c: int, k: nat)
    requires IsGrid(b, h, w) && k < |Directions|
    ensures Toward(r, c, k) !in MinedOffsets(b, h, w, r, c, k)
  {
    forall i | 0 <= i < k
      ensures Toward(r, c, i) != Toward(r, c, k)
    {
      DirectionAt(i);
      DirectionAt(k);
    }
  }

  /** The running count of the direction loop is the number of mined cells
      those directions reach. */
  lemma {:induction false} MinesAmongIsSize(b: seq<seq<Cell>>, h: nat, w: nat, r: int, c: int, k: nat)
    requires IsGrid(b, h, w) && k <= |Directions|
    ensures MinesAmong(b, h, w, r, c, k) == |MinedOffsets(b, h, w, r, c, k)|
  {
    if k == 0 {
      assert MinedOffsets(b, h, w, r, c, k) == {};
    } else {
      MinesAmongIsSize(b, h, w, r, c, k - 1);
      MinedOffsetsStep(b, h, w, r, c, k);
      TowardFresh(b, h, w, r, c, k - 1);
    }
  }

  /** A mined direction leads to a mined neighbour. */
  lemma OffsetIsMinedNeighbour(b: seq<seq<Cell>>, h: nat, w: nat, r: int, c: int, i: nat)
    requires IsGrid(b, h, w) && i < |Directions| && MineAt(b, h, w, Toward(r, c, i))
    ensures Toward(r, c, i) in Neighbours(h, w, r, c) * MinesOf(b)
  {
    DirectionAt(i);
  }

  /** A mined neighbour is reached by some direction. */
  lemma MinedNeighbourIsOffset(b: seq<seq<Cell>>, h: nat, w: nat, r: int, c: int, p: (int, int))
    requires IsGrid(b, h, w) && p in Neighbours(h, w, r, c) * MinesOf(b)
    ensures p in MinedOffsets(b, h, w, r, c, |Directions|)
  {
    var k := DirectionIndex(p.0 - r, p.1 - c);
    assert p == Toward(r, c, k) && MineAt(b, h, w, Toward(r, c, k));
  }

  /** The stored count is the number of mines among the in-bounds
      neighbours of the cell. */
  lemma AdjacentMinesCountsNeighbours(b: seq<seq<Cell>>, h: nat, w: nat, r: int, c: int)
    requires IsGrid(b, h, w)
    ensures AdjacentMines(b, h, w, r, c) == |Neighbours(h, w, r, c) * MinesOf(b)|
  {
    MinesAmongIsSize(b, h, w, r, c, |Directions|);
    var found := MinedOffsets(b, h, w, r, c, |Directions|);
    var mined := Neighbours(h, w, r, c) * MinesOf(b);
    forall p | p in mined
      ensures p in found
    {
      MinedNeighbourIsOffset(b, h, w, r, c, p);
    }
    forall i | 0 <= i < |Directions| && MineAt(b, h, w, Toward(r, c, i))
      ensures Toward(r, c, i) in mined
    {
      OffsetIsMinedNeighbour(b, h, w, r, c, i);
    }
    assert found == mined;
  }

  /** A count of zero means that no neighbour is a mine, and conversely. */
  lemma ZeroMeansNoMinedNeighbour(b: seq<seq<Cell>>, h: nat, w: nat, r: int, c: int)
    requires IsGrid(b, h, w)
    ensures AdjacentMines(b, h, w, r, c) == 0 <==>
      forall r2, c2 :: InBounds(h, w, r2, c2) && Adjacent(r, c, r2, c2) ==> b[r2][c2] != Mine
  {
    AdjacentMinesCountsNeighbours(b, h, w, r, c);
    var s := Neighbours(h, w, r, c) * MinesOf(b);
    if AdjacentMines(b, h, w, r, c) == 0 {
      forall r2, c2 | InBounds(h, w, r2, c2) && Adjacent(r, c, r2, c2)
        ensures b[r2][c2] != Mine
      {
        assert (r2, c2) !in s;
      }
    } else {
      var p :| p in s;
      assert InBounds(h, w, p.0, p.1) && Adjacent(r, c, p.0, p.1) && b[p.0][p.1] == Mine;
    }
  }

  /** The count depends only on where the mines are. */
  lemma SameMinesSameCount(b1: seq<seq<Cell>>, b2: seq<seq<Cell>>, h: nat, w: nat, r: int, c: int)
    requires IsGrid(b1, h, w) && IsGrid(b2, h, w) && MinesOf(b1) == MinesOf(b2)
    ensures AdjacentMines(b1, h, w, r, c) == AdjacentMines(b2, h, w, r, c)
  {
    AdjacentMinesCountsNeighbours(b1, h, w, r, c);
    AdjacentMinesCountsNeighbours(b2, h, w, r, c);
  }

  /** How many of the rows (or columns) i-1, i, i+1 lie in 0..n-1. */
  function Span(n: int, i: int): int {
    (if i + 2 < n then i + 2 else n) - (if i - 1 > 0 then i - 1 else 0)
  }

  /** The neighbours of (r, c) are the clipped 3-by-3 box around it, less
      the cell itself. */
  lemma NeighboursAreBox(h: nat, w: nat, r: int, c: int)
    requires InBounds(h, w, r, c)
    ensures |Neighbours(h, w, r, c)| + 1 ==
      |Rect(if r - 1 > 0 then r - 1 else 0, if r + 2 < h then r + 2 else h,
            if c - 1 > 0 then c - 1 else 0, if c + 2 < w then c + 2 else w)|
  {
    var box := Rect(if r - 1 > 0 then r - 1 else 0, if r + 2 < h then r + 2 else h,
                    if c - 1 > 0 then c - 1 else 0, if c + 2 < w then c + 2 else w);
    var n := Neighbours(h, w, r, c);
    forall p | p in box ensures p in n + {(r, c)} {
      if p != (r, c) {
        assert Adjacent(r, c, p.0, p.1);
      }
    }
    forall p | p in n + {(r, c)} ensures p in box {
    }
    assert n + {(r, c)} == box;
    assert (r, c) !in n;
  }

  /** The number of neighbours, from the sizes of the clipped box. */
  lemma NeighbourBox(h: nat, w: nat, r: int, c: int)
    requires InBounds(h, w, r, c)
    ensures |Neighbours(h, w, r, c)| == Span(h, r) * Span(w, c) - 1
  {
    var r0, r1 := if r - 1 > 0 then r - 1 else 0, if r + 2 < h then r + 2 else h;
    var c0, c1 := if c - 1 > 0 then c - 1 else 0, if c + 2 < w then c + 2 else w;
    RectSize(r0, r1, c0, c1);
    NeighboursAreBox(h, w, r, c);
    assert r1 - r0 == Span(h, r) && c1 - c0 == Span(w, c);
  }

  /** A cell has up to eight neighbours: three in a corner, five on any
      other edge cell, eight inside. Its count is never larger. */
  lemma NeighbourCount(b: seq<seq<Cell>>, h: nat, w: nat, r: int, c: int)
    requires IsGrid(b, h, w) && InBounds(h, w, r, c)
    ensures |Neighbours(h, w, r, c)| == Span(h, r) * Span(w, c) - 1
    ensures AdjacentMines(b, h, w, r, c) <= |Neighbours(h, w, r, c)| <= 8
    ensures (r == 0 || r == h - 1) && (c == 0 || c == w - 1) && h >= 2 && w >= 2 ==>
      |Neighbours(h, w, r, c)| == 3
    ensures (r == 0 || r == h - 1) && 0 < c < w - 1 && h >= 2 ==>
      |Neighbours(h, w, r, c)| == 5
    ensures 0 < r < h - 1 && (c == 0 || c == w - 1) && w >= 2 ==>
      |Neighbours(h, w, r, c)| == 5
    ensures 0 < r < h - 1 && 0 < c < w - 1 ==> |Neighbours(h, w, r, c)| == 8
  {
    NeighbourBox(h, w, r, c);
    var n := Neighbours(h, w, r, c);
    var sr, sc := Span(h, r), Span(w, c);
    assert 1 <= sr <= 3 && 1 <= sc <= 3;
    assert (r == 0 || r == h - 1) && h >= 2 ==> sr == 2;
    assert 0 < r < h - 1 ==> sr == 3;
    assert (c == 0 || c == w - 1) && w >= 2 ==> sc == 2;
    assert 0 < c < w - 1 ==> sc == 3;
    SpanProduct(sr, sc);
    AdjacentMinesCountsNeighbours(b, h, w, r, c);
    SubsetSize(n * MinesOf(b), n);
  }

  /** The products of spans the corner, edge and interior cases need. */
  lemma SpanProduct(sr: int, sc: int)
    requires 1 <= sr <= 3 && 1 <= sc <= 3
    ensures sr * sc <= 9
    ensures sr == 2 && sc == 2 ==> sr * sc == 4
    ensures sr == 2 && sc == 3 ==> sr * sc == 6
    ensures sr == 3 && sc == 2 ==> sr * sc == 6
    ensures sr == 3 && sc == 3 ==> sr * sc == 9
  {
    if sr == 1 {} else if sr == 2 {} else {}
  }

  // ---------------------------------------------------------------------
  // Sizes of position sets
  // ---------------------------------------------------------------------

  /** A subset's size, and the size of what the superset adds. */
  lemma SubsetSize(a: set<(int, int)>, b: set<(int, int)>)
    requires a <= b
    ensures |b| == |a| + |b - a|
    ensures |a| == |b| ==> a == b
  {
    assert b == a + (b - a);
    assert a * (b - a) == {};
  }

  /** One row of a rectangle has (columns) elements. */
  lemma {:induction false} RowSize(r: int, c0: int, c1: int)
    requires c0 <= c1
    ensures |Rect(r, r + 1, c0, c1)| == c1 - c0
    decreases c1 - c0
  {
    if c1 == c0 {
      assert Rect(r, r + 1, c0, c1) == {};
    } else {
      RowSize(r, c0, c1 - 1);
      assert Rect(r, r + 1, c0, c1) == Rect(r, r + 1, c0, c1 - 1) + {(r, c1 - 1)};
    }
  }

  /** A rectangle of positions has (rows) * (columns) elements. */
  lemma {:induction false} RectSize(r0: int, r1: int, c0: int, c1: int)
    requires r0 <= r1 && c0 <= c1
    ensures |Rect(r0, r1, c0, c1)| == (r1 - r0) * (c1 - c0)
    decreases r1 - r0
  {
    if r1 == r0 {
      assert Rect(r0, r1, c0, c1) == {};
    } else {
      RectSize(r0, r1 - 1, c0, c1);
      RowSize(r1 - 1, c0, c1);
      var top, last := Rect(r0, r1 - 1, c0, c1), Rect(r1 - 1, r1, c0, c1);
      assert Rect(r0, r1, c0, c1) == top + last;
      assert top * last == {};
      assert (r1 - r0) * (c1 - c0) == (r1 - 1 - r0) * (c1 - c0) + (c1 - c0);
    }
  }

  /** A marked position of an h-by-w grid is one of its h*w cells. */
  lemma TrueCellsInside(g: seq<seq<bool>>, h: nat, w: nat)
    requires IsGrid(g, h, w)
    ensures TrueCells(g) <= Cells(h, w)
  {
  }

  /** A grid marks at most all of its h*w cells. */
  lemma TrueCellsBound(g: seq<seq<bool>>, h: nat, w: nat)
    requires IsGrid(g, h, w)
    ensures |TrueCells(g)| <= h * w
  {
    TrueCellsInside(g, h, w);
    RectSize(0, h, 0, w);
    SubsetSize(TrueCells(g), Cells(h, w));
  }

  /** While fewer than h*w cells are mined, some cell is still free, so the
      rejection loop that places a mine has a cell to find. */
  lemma FreeCellExists(b: seq<seq<Cell>>, h: nat, w: nat)
    requires IsGrid(b, h, w) && |MinesOf(b)| < h * w
    ensures exists r, c :: 0 <= r < h && 0 <= c < w && b[r][c] != Mine
  {
    RectSize(0, h, 0, w);
    assert MinesOf(b) <= Cells(h, w);
    SubsetSize(MinesOf(b), Cells(h, w));
    var p :| p in Cells(h, w) - MinesOf(b);
    assert 0 <= p.0 < h && 0 <= p.1 < w && b[p.0][p.1] != Mine;
  }

  /** A grid that keeps every mark marks a superset of positions. */
  lemma GrowsSubset(g0: seq<seq<bool>>, g1: seq<seq<bool>>, h: nat, w: nat)
    requires IsGrid(g0, h, w) && IsGrid(g1, h, w) && Grows(g0, g1, h, w)
    ensures TrueCells(g0) <= TrueCells(g1)
  {
  }

  // ---------------------------------------------------------------------
  // Cascade bookkeeping
  // ---------------------------------------------------------------------

  /** Every in-bounds cell that one of the first k directions leads to
      from (r, c) is marked in rev. */
  ghost predicate Covered(rev: seq<seq<bool>>, h: nat, w: nat, r: int, c: int, k: nat)
    requires IsGrid(rev, h, w) && k <= |Directions|
  {
    forall i :: 0 <= i < k && InBounds(h, w, Toward(r, c, i).0, Toward(r, c, i).1) ==>
      rev[Toward(r, c, i).0][Toward(r, c, i).1]
  }

  /** Marking more cells keeps the covered directions covered. */
  lemma CoveredGrows(rev0: seq<seq<bool>>, rev1: seq<seq<bool>>, h: nat, w: nat, r: int, c: int, k: nat)
    requires IsGrid(rev0, h, w) && IsGrid(rev1, h, w) && k <= |Directions|
    requires Covered(rev0, h, w, r, c, k) && Grows(rev0, rev1, h, w)
    ensures Covered(rev1, h, w, r, c, k)
  {
  }

  /** Covering one more direction. */
  lemma CoveredStep(rev: seq<seq<bool>>, h: nat, w: nat, r: int, c: int, k: nat)
    requires IsGrid(rev, h, w) && k < |Directions| && Covered(rev, h, w, r, c, k)
    requires InBounds(h, w, Toward(r, c, k).0, Toward(r, c, k).1) ==> rev[Toward(r, c, k).0][Toward(r, c, k).1]
    ensures Covered(rev, h, w, r, c, k + 1)
  {
  }

  /** Once all eight directions are covered, every in-bounds neighbour is
      marked. */
  lemma CoveredAll(rev: seq<seq<bool>>, h: nat, w: nat, r: int, c: int)
    requires IsGrid(rev, h, w) && Covered(rev, h, w, r, c, |Directions|)
    ensures Closed(rev, h, w, r, c)
  {
    forall r2, c2 | InBounds(h, w, r2, c2) && Adjacent(r, c, r2, c2)
      ensures rev[r2][c2]
    {
      var k := DirectionIndex(r2 - r, c2 - c);
      assert Toward(r, c, k) == (r2, c2);
    }
  }

  /** rev1 keeps every mark of rev0, and every cell it adds is safe. */
  ghost predicate SafelyGrows(b: seq<seq<Cell>>, rev0: seq<seq<bool>>, rev1: seq<seq<bool>>, h: nat, w: nat)
    requires IsGrid(b, h, w) && IsGrid(rev0, h, w) && IsGrid(rev1, h, w)
  {
    Grows(rev0, rev1, h, w) &&
    forall r, c :: InBounds(h, w, r, c) && rev1[r][c] && !rev0[r][c] ==> b[r][c] != Mine
  }

  /** Every cell newly marked in rev1, other than the origin (r0, c0), has a
      zero neighbour that is the origin or is itself newly marked: a cascade
      spreads only from zero cells it has revealed. */
  ghost predicate Supported(b: seq<seq<Cell>>, rev0: seq<seq<bool>>, rev1: seq<seq<bool>>, h: nat, w: nat,
                            r0: int, c0: int)
    requires IsGrid(b, h, w) && IsGrid(rev0, h, w) && IsGrid(rev1, h, w)
  {
    forall r, c :: InBounds(h, w, r, c) && rev1[r][c] && !rev0[r][c] && (r, c) != (r0, c0) ==>
      LeansOn(b, rev0, rev1, h, w, r, c, r0, c0)
  }

  /** (r, c) has a zero neighbour that is the origin (r0, c0) or is newly
      marked in rev1. */
  ghost predicate LeansOn(b: seq<seq<Cell>>, rev0: seq<seq<bool>>, rev1: seq<seq<bool>>, h: nat, w: nat,
                          r: int, c: int, r0: int, c0: int)
    requires IsGrid(b, h, w) && IsGrid(rev0, h, w) && IsGrid(rev1, h, w)
  {
    exists r2, c2 :: InBounds(h, w, r2, c2) && Adjacent(r, c, r2, c2) && b[r2][c2] == Num(0) &&
      ((r2, c2) == (r0, c0) || (rev1[r2][c2] && !rev0[r2][c2]))
  }

  /** Marking nothing new needs no support. */
  lemma SupportedRefl(b: seq<seq<Cell>>, rev: seq<seq<bool>>, h: nat, w: nat, r0: int, c0: int)
    requires IsGrid(b, h, w) && IsGrid(rev, h, w)
    ensures Supported(b, rev, rev, h, w, r0, c0)
  {
  }

  /** Two supported growths from the same origin make one. */
  lemma SupportedTrans(b: seq<seq<Cell>>, rev0: seq<seq<bool>>, rev1: seq<seq<bool>>, rev2: seq<seq<bool>>,
                       h: nat, w: nat, r0: int, c0: int)
    requires IsGrid(b, h, w) && IsGrid(rev0, h, w) && IsGrid(rev1, h, w) && IsGrid(rev2, h, w)
    requires Grows(rev0, rev1, h, w) && Grows(rev1, rev2, h, w)
    requires Supported(b, rev0, rev1, h, w, r0, c0) && Supported(b, rev1, rev2, h, w, r0, c0)
    ensures Supported(b, rev0, rev2, h, w, r0, c0)
  {
    forall r, c | InBounds(h, w, r, c) && rev2[r][c] && !rev0[r][c] && (r, c) != (r0, c0)
      ensures LeansOn(b, rev0, rev2, h, w, r, c, r0, c0)
    {
      if rev1[r][c] {
        var r2, c2 :| InBounds(h, w, r2, c2) && Adjacent(r, c, r2, c2) && b[r2][c2] == Num(0) &&
          ((r2, c2) == (r0, c0) || (rev1[r2][c2] && !rev0[r2][c2]));
        assert (r2, c2) == (r0, c0) || (rev2[r2][c2] && !rev0[r2][c2]);
      } else {
        var r2, c2 :| InBounds(h, w, r2, c2) && Adjacent(r, c, r2, c2) && b[r2][c2] == Num(0) &&
          ((r2, c2) == (r0, c0) || (rev2[r2][c2] && !rev1[r2][c2]));
        assert (r2, c2) == (r0, c0) || (rev2[r2][c2] && !rev0[r2][c2]);
      }
    }
  }

  /** A cascade from (r, c), run after (r, c) itself was marked, is
      supported from (r, c) against the grid before the mark. */
  lemma SupportedAfterMark(b: seq<seq<Cell>>, rev0: seq<seq<bool>>, rev2: seq<seq<bool>>, h: nat, w: nat,
                           r: int, c: int)
    requires IsGrid(b, h, w) && IsGrid(rev0, h, w) && IsGrid(rev2, h, w) && InBounds(h, w, r, c)
    requires IsGrid(rev0[r := rev0[r][c := true]], h, w)
    requires Supported(b, rev0[r := rev0[r][c := true]], rev2, h, w, r, c)
    ensures Supported(b, rev0, rev2, h, w, r, c)
  {
    var rev1 := rev0[r := rev0[r][c := true]];
    forall r1, c1 | InBounds(h, w, r1, c1) && rev2[r1][c1] && !rev0[r1][c1] && (r1, c1) != (r, c)
      ensures LeansOn(b, rev0, rev2, h, w, r1, c1, r, c)
    {
      assert !rev1[r1][c1];
      var r2, c2 :| InBounds(h, w, r2, c2) && Adjacent(r1, c1, r2, c2) && b[r2][c2] == Num(0) &&
        ((r2, c2) == (r, c) || (rev2[r2][c2] && !rev1[r2][c2]));
      assert (r2, c2) == (r, c) || (rev2[r2][c2] && !rev0[r2][c2]);
    }
  }

  /** A neighbour (r, c) of the zero cell (pr, pc), marked and then cascaded
      from, is supported from (pr, pc): (r, c) leans on (pr, pc), and what
      its own cascade marks leans on (r, c) or on cells marked since. */
  lemma SupportedByParent(b: seq<seq<Cell>>, rev0: seq<seq<bool>>, rev2: seq<seq<bool>>, h: nat, w: nat,
                          r: int, c: int, pr: int, pc: int)
    requires IsGrid(b, h, w) && IsGrid(rev0, h, w) && IsGrid(rev2, h, w) && InBounds(h, w, r, c)
    requires !rev0[r][c]
    requires InBounds(h, w, pr, pc) && Adjacent(r, c, pr, pc) && b[pr][pc] == Num(0)
    requires IsGrid(rev0[r := rev0[r][c := true]], h, w)
    requires Grows(rev0[r := rev0[r][c := true]], rev2, h, w)
    requires Supported(b, rev0[r := rev0[r][c := true]], rev2, h, w, r, c)
    ensures Supported(b, rev0, rev2, h, w, pr, pc)
  {
    var rev1 := rev0[r := rev0[r][c := true]];
    assert rev1[r][c] && rev2[r][c];
    forall r1, c1 | InBounds(h, w, r1, c1) && rev2[r1][c1] && !rev0[r1][c1] && (r1, c1) != (pr, pc)
      ensures LeansOn(b, rev0, rev2, h, w, r1, c1, pr, pc)
    {
      if (r1, c1) == (r, c) {
        assert InBounds(h, w, pr, pc) && Adjacent(r1, c1, pr, pc) && b[pr][pc] == Num(0);
      } else {
        assert !rev1[r1][c1];
        var r2, c2 :| InBounds(h, w, r2, c2) && Adjacent(r1, c1, r2, c2) && b[r2][c2] == Num(0) &&
          ((r2, c2) == (r, c) || (rev2[r2][c2] && !rev1[r2][c2]));
        assert rev2[r2][c2] && !rev0[r2][c2];
      }
    }
  }

  /** Growing by nothing is safe. */
  lemma SafelyGrowsRefl(b: seq<seq<Cell>>, rev: seq<seq<bool>>, h: nat, w: nat)
    requires IsGrid(b, h, w) && IsGrid(rev, h, w)
    ensures SafelyGrows(b, rev, rev, h, w)
  {
  }

  /** Two safe growths in a row make one. */
  lemma SafelyGrowsTrans(b: seq<seq<Cell>>, rev0: seq<seq<bool>>, rev1: seq<seq<bool>>, rev2: seq<seq<bool>>,
                         h: nat, w: nat)
    requires IsGrid(b, h, w) && IsGrid(rev0, h, w) && IsGrid(rev1, h, w) && IsGrid(rev2, h, w)
    requires SafelyGrows(b, rev0, rev1, h, w) && SafelyGrows(b, rev1, rev2, h, w)
    ensures SafelyGrows(b, rev0, rev2, h, w)
  {
  }

  /** Marking one safe cell grows the grid safely. */
  lemma MarkSafely(b: seq<seq<Cell>>, rev: seq<seq<bool>>, h: nat, w: nat, r: int, c: int)
    requires IsGrid(b, h, w) && IsGrid(rev, h, w) && InBounds(h, w, r, c) && b[r][c] != Mine
    ensures IsGrid(rev[r := rev[r][c := true]], h, w)
    ensures SafelyGrows(b, rev, rev[r := rev[r][c := true]], h, w)
  {
  }

  /** A click that marks (r, c) and then grows the grid safely adds no mine
      other than possibly (r, c) itself. */
  lemma MarkThenGrow(b: seq<seq<Cell>>, rev0: seq<seq<bool>>, rev2: seq<seq<bool>>, h: nat, w: nat, r: int, c: int)
    requires IsGrid(b, h, w) && IsGrid(rev0, h, w) && IsGrid(rev2, h, w) && InBounds(h, w, r, c)
    requires IsGrid(rev0[r := rev0[r][c := true]], h, w)
    requires SafelyGrows(b, rev0[r := rev0[r][c := true]], rev2, h, w)
    ensures Grows(rev0, rev2, h, w) && rev2[r][c]
    ensures forall r2, c2 :: InBounds(h, w, r2, c2) && rev2[r2][c2] && !rev0[r2][c2] && (r2, c2) != (r, c) ==>
      b[r2][c2] != Mine
  {
    var rev1 := rev0[r := rev0[r][c := true]];
    forall r2, c2 | InBounds(h, w, r2, c2) && rev2[r2][c2] && !rev0[r2][c2] && (r2, c2) != (r, c)
      ensures b[r2][c2] != Mine
    {
      assert !rev1[r2][c2];
    }
    assert rev1[r][c];
  }

  // ---------------------------------------------------------------------
  // Updates of one cell
  // ---------------------------------------------------------------------

  /** A fresh grid marks nothing and holds no mine. */
  lemma FreshGrids(h: nat, w: nat)
    ensures TrueCells(Grid(h, w, false)) == {}
    ensures MinesOf(Grid(h, w, Num(0))) == {}
  {
  }

  /** Changing one entry of a boolean grid adds or removes that position. */
  lemma SetFlag(g: seq<seq<bool>>, r: int, c: int, x: bool)
    requires 0 <= r < |g| && 0 <= c < |g[r]|
    ensures TrueCells(g[r := g[r][c := x]]) ==
      if x then TrueCells(g) + {(r, c)} else TrueCells(g) - {(r, c)}
  {
  }

  /** Flipping one entry of an h-by-w grid keeps its shape and moves the
      number of marked positions by one. */
  lemma FlipCount(g: seq<seq<bool>>, h: nat, w: nat, r: int, c: int)
    requires IsGrid(g, h, w) && InBounds(h, w, r, c)
    ensures IsGrid(g[r := g[r][c := !g[r][c]]], h, w)
    ensures |TrueCells(g[r := g[r][c := !g[r][c]]])| == |TrueCells(g)| + (if g[r][c] then -1 else 1)
  {
    SetFlag(g, r, c, !g[r][c]);
    assert (r, c) in TrueCells(g) <==> g[r][c];
  }

  /** Laying a mine on a free cell of an h-by-w board keeps its shape and
      adds exactly that mine. */
  lemma LayMine(b: seq<seq<Cell>>, h: nat, w: nat, r: int, c: int)
    requires IsGrid(b, h, w) && InBounds(h, w, r, c) && b[r][c] != Mine
    ensures IsGrid(b[r := b[r][c := Mine]], h, w)
    ensures MinesOf(b) <= MinesOf(b[r := b[r][c := Mine]])
    ensures |MinesOf(b[r := b[r][c := Mine]])| == |MinesOf(b)| + 1
  {
    SetCell(b, r, c, Mine);
    assert (r, c) !in MinesOf(b);
  }

  /** Changing one cell of a board adds or removes that mine position. */
  lemma SetCell(b: seq<seq<Cell>>, r: int, c: int, x: Cell)
    requires 0 <= r < |b| && 0 <= c < |b[r]|
    ensures MinesOf(b[r := b[r][c := x]]) ==
      if x == Mine then MinesOf(b) + {(r, c)} else MinesOf(b) - {(r, c)}
  {
  }

  // ---------------------------------------------------------------------
  // The numbered board
  // ---------------------------------------------------------------------

  /** What computing the numbers makes of one cell. */
  ghost function NumberedCell(b: seq<seq<Cell>>, h: nat, w: nat, r: int, c: int): Cell
    requires IsGrid(b, h, w) && InBounds(h, w, r, c)
  {
    if b[r][c] == Mine then Mine else Num(AdjacentMines(b, h, w, r, c))
  }

  /** a is what computing the numbers makes of b: mines stay, every other
      cell holds its neighbour count on b. */
  ghost predicate NumberingOf(a: seq<seq<Cell>>, b: seq<seq<Cell>>, h: nat, w: nat)
    requires IsGrid(b, h, w)
  {
    IsGrid(a, h, w) && forall r, c :: InBounds(h, w, r, c) ==> a[r][c] == NumberedCell(b, h, w, r, c)
  }

  /** Every non-mine cell holds the number of its mined neighbours. */
  ghost predicate Numbered(b: seq<seq<Cell>>, h: nat, w: nat)
    requires IsGrid(b, h, w)
  {
    // Triggering on the count rather than on b[r][c] keeps the count of
    // one cell from instantiating this for all of its neighbours.
    forall r, c {:trigger AdjacentMines(b, h, w, r, c)} ::
      InBounds(h, w, r, c) && b[r][c] != Mine ==> b[r][c] == Num(AdjacentMines(b, h, w, r, c))
  }

  /** Computing the numbers keeps the mines where they are and leaves a
      board whose numbers are right for that same board, each at most 8. */
  lemma NumberingIsNumbered(a: seq<seq<Cell>>, b: seq<seq<Cell>>, h: nat, w: nat)
    requires IsGrid(b, h, w) && NumberingOf(a, b, h, w)
    ensures MinesOf(a) == MinesOf(b)
    ensures Numbered(a, h, w)
    ensures forall r, c :: InBounds(h, w, r, c) && a[r][c] != Mine ==> a[r][c].n <= 8
  {
    assert MinesOf(a) == MinesOf(b);
    forall r, c | InBounds(h, w, r, c) && a[r][c] != Mine
      ensures a[r][c] == Num(AdjacentMines(a, h, w, r, c)) && a[r][c].n <= 8
    {
      SameMinesSameCount(a, b, h, w, r, c);
      NeighbourCount(b, h, w, r, c);
    }
  }

  /** On a numbered board a zero cell has no mined neighbour, so revealing
      the neighbours of a zero cell never reveals a mine. */
  lemma ZeroCellHasSafeNeighbours(b: seq<seq<Cell>>, h: nat, w: nat, r: int, c: int, r2: int, c2: int)
    requires IsGrid(b, h, w) && Numbered(b, h, w)
    requires InBounds(h, w, r, c) && b[r][c] == Num(0)
    requires InBounds(h, w, r2, c2) && Adjacent(r, c, r2, c2)
    ensures b[r2][c2] != Mine
  {
    ZeroMeansNoMinedNeighbour(b, h, w, r, c);
  }

  /** With no mine revealed, the number of revealed cells equals the number
      of safe cells exactly when every safe cell is revealed: the point at
      which the engine declares a win. */
  lemma WinMeansAllSafeRevealed(b: seq<seq<Cell>>, rev: seq<seq<bool>>, h: nat, w: nat, m: nat)
    requires IsGrid(b, h, w) && IsGrid(rev, h, w) && |MinesOf(b)| == m
    requires TrueCells(rev) !! MinesOf(b)
    ensures |TrueCells(rev)| == h * w - m <==> Cells(h, w) - MinesOf(b) <= TrueCells(rev)
  {
    var safe := Cells(h, w) - MinesOf(b);
    RectSize(0, h, 0, w);
    assert MinesOf(b) <= Cells(h, w);
    SubsetSize(MinesOf(b), Cells(h, w));
    assert |safe| == h * w - m;
    TrueCellsInside(rev, h, w);
    assert TrueCells(rev) <= safe;
    SubsetSize(TrueCells(rev), safe);
  }
}
