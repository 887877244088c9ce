/** The board as a value: positions, tiles, the in-bounds 8-neighbourhood
    and the counting functions the engine's invariants are stated with. */
module Grid {

  /** A tile coordinate, `x` the row index and `y` the column index. */
  datatype Pos = Pos(x: int, y: int)

  /** STATE_DEFAULT, STATE_CLICKED and STATE_FLAGGED. */
  datatype State = Default | Clicked | Flagged

  /** One entry of the tile dictionary: the mine flag, the adjacency count
      (`mines`) and the click state. */
  datatype Tile = Tile(isMine: bool, mines: int, state: State)

  /** The tile dictionary, keyed by coordinate. */
  type Board = map<Pos, Tile>

  /** A tile as created by `setup`, before seeding and counting. */
  const Fresh: Tile := Tile(false, 0, Default)

  /** The number of indices `range(0, n)` yields. */
  function Span(n: int): nat { if n > 0 then n else 0 }

  /** The number of tiles `setup` creates for the given sizes. */
  function NumTiles(sizeX: int, sizeY: int): nat { Span(sizeX) * Span(sizeY) }

  predicate InBounds(sizeX: int, sizeY: int, p: Pos) {
    0 <= p.x < sizeX && 0 <= p.y < sizeY
  }

  /** The set of keys `setup` creates. */
  function Cells(sizeX: int, sizeY: int): set<Pos> {
    set x, y | 0 <= x < sizeX && 0 <= y < sizeY :: Pos(x, y)
  }

  /** Two distinct positions that differ by at most one in each coordinate,
      with no wrap-around at the edges. */
  predicate Adjacent(p: Pos, q: Pos) {
    p != q && -1 <= q.x - p.x <= 1 && -1 <= q.y - p.y <= 1
  }

  predicate Distinct(s: seq<Pos>) {
    forall i, j :: 0 <= i < j < |s| ==> s[i] != s[j]
  }

  /** The eight candidate coordinates, in the order `getNeighbors` tries them. */
  function Candidates(p: Pos): (r: seq<Pos>)
    ensures |r| == 8 && Distinct(r)
    ensures forall q :: q in r <==> Adjacent(p, q)
  {
    [Pos(p.x - 1, p.y - 1), Pos(p.x - 1, p.y), Pos(p.x - 1, p.y + 1),
     Pos(p.x, p.y - 1), Pos(p.x, p.y + 1),
     Pos(p.x + 1, p.y - 1), Pos(p.x + 1, p.y), Pos(p.x + 1, p.y + 1)]
  }

  /** Keeps the candidates whose dictionary lookup succeeds, in order. */
  function InBoundsOnly(sizeX: int, sizeY: int, cs: seq<Pos>): (r: seq<Pos>)
    ensures |r| <= |cs|
    ensures forall q :: q in r <==> q in cs && InBounds(sizeX, sizeY, q)
    ensures Distinct(cs) ==> Distinct(r)
  {
    if cs == [] then []
    else if InBounds(sizeX, sizeY, cs[0]) then [cs[0]] + InBoundsOnly(sizeX, sizeY, cs[1..])
    else InBoundsOnly(sizeX, sizeY, cs[1..])
  }

  /** `getNeighbors(x, y)`: the in-bounds tiles adjacent to `p`. */
  function Neighbors(sizeX: int, sizeY: int, p: Pos): (r: seq<Pos>)
    ensures |r| <= 8 && Distinct(r)
    ensures forall q :: q in r <==> InBounds(sizeX, sizeY, q) && Adjacent(p, q)
  {
    InBoundsOnly(sizeX, sizeY, Candidates(p))
  }

  lemma NeighborsSymmetric(sizeX: int, sizeY: int, p: Pos, q: Pos)
    requires InBounds(sizeX, sizeY, p) && InBounds(sizeX, sizeY, q)
    ensures q in Neighbors(sizeX, sizeY, p) <==> p in Neighbors(sizeX, sizeY, q)
  {
  }

  predicate Mined(b: Board, p: Pos) { p in b && b[p].isMine }

  /** The number of mined tiles listed in `ns` (a tile listed twice counts twice). */
  function MinedCount(b: Board, ns: seq<Pos>): (n: nat)
    ensures n <= |ns|
  {
    if ns == [] then 0
    else MinedCount(b, ns[..|ns| - 1]) + (if Mined(b, ns[|ns| - 1]) then 1 else 0)
  }

  /** The adjacency count `setup` assigns to the tile at `p`. */
  function MinesAround(b: Board, sizeX: int, sizeY: int, p: Pos): nat {
    MinedCount(b, Neighbors(sizeX, sizeY, p))
  }

  lemma {:induction false} MinedCountZero(b: Board, ns: seq<Pos>, q: Pos)
    requires MinedCount(b, ns) == 0 && q in ns
    ensures !Mined(b, q)
  {
    if ns[|ns| - 1] != q {
      assert q in ns[..|ns| - 1];
      MinedCountZero(b, ns[..|ns| - 1], q);
    }
  }

  lemma {:induction false} MinedCountFrame(b1: Board, b2: Board, ns: seq<Pos>)
    requires forall q :: q in ns ==> (Mined(b1, q) <==> Mined(b2, q))
    ensures MinedCount(b1, ns) == MinedCount(b2, ns)
  {
    if ns != [] {
      MinedCountFrame(b1, b2, ns[..|ns| - 1]);
    }
  }

  /** Every tile's `mines` equals the number of mined tiles among its neighbours. */
  ghost predicate AdjacencyOk(b: Board, sizeX: int, sizeY: int) {
    forall p {:trigger MinesAround(b, sizeX, sizeY, p)} ::
      p in b ==> b[p].mines == MinesAround(b, sizeX, sizeY, p)
  }

  /** The mine layout and the adjacency counts agree, whatever the states. */
  ghost predicate SameLayout(b1: Board, b2: Board) {
    && b1.Keys == b2.Keys
    && forall p :: p in b1 ==> b2[p].isMine == b1[p].isMine && b2[p].mines == b1[p].mines
  }

  /** `b2` is `b1` with some DEFAULT tiles turned CLICKED and nothing else changed. */
  ghost predicate Evolves(b1: Board, b2: Board) {
    && SameLayout(b1, b2)
    && forall p :: p in b1 ==>
         b2[p].state == b1[p].state || (b1[p].state == Default && b2[p].state == Clicked)
  }

  ghost predicate NewlyClicked(b1: Board, b2: Board, p: Pos) {
    p in b1 && b1[p].state == Default && p in b2 && b2[p].state == Clicked
  }

  /** No revealed tile is a mine. */
  ghost predicate NoRevealedMine(b: Board) {
    forall p :: p in b && b[p].state == Clicked ==> !b[p].isMine
  }

  /** Every neighbour of `c` has left the DEFAULT state. */
  ghost predicate Closed(b: Board, sizeX: int, sizeY: int, c: Pos) {
    forall q :: q in Neighbors(sizeX, sizeY, c) ==> q in b && b[q].state != Default
  }

  lemma AdjacencyFrame(b1: Board, b2: Board, sizeX: int, sizeY: int)
    requires AdjacencyOk(b1, sizeX, sizeY) && SameLayout(b1, b2)
    ensures AdjacencyOk(b2, sizeX, sizeY)
  {
    forall p | p in b2
      ensures b2[p].mines == MinesAround(b2, sizeX, sizeY, p)
    {
      assert b1[p].mines == MinesAround(b1, sizeX, sizeY, p);
      MinedCountFrame(b1, b2, Neighbors(sizeX, sizeY, p));
    }
  }

  /** Counts taken over a mine layout are adjacency counts of any board with
      the same mines. */
  lemma AdjacencyFromLayout(layout: Board, b: Board, sizeX: int, sizeY: int)
    requires b.Keys == layout.Keys
    requires forall p :: p in b ==> b[p].isMine == layout[p].isMine
    requires forall p {:trigger MinesAround(layout, sizeX, sizeY, p)} ::
      p in b ==> b[p].mines == MinesAround(layout, sizeX, sizeY, p)
    ensures AdjacencyOk(b, sizeX, sizeY)
  {
    forall p | p in b
      ensures b[p].mines == MinesAround(b, sizeX, sizeY, p)
    {
      assert b[p].mines == MinesAround(layout, sizeX, sizeY, p);
      MinedCountFrame(layout, b, Neighbors(sizeX, sizeY, p));
    }
  }

  /** A tile whose count is zero has no mined neighbour. */
  lemma ZeroTileNeighborSafe(b: Board, sizeX: int, sizeY: int, c: Pos, q: Pos)
    requires AdjacencyOk(b, sizeX, sizeY) && c in b && b[c].mines == 0
    requires q in Neighbors(sizeX, sizeY, c)
    ensures !Mined(b, q)
  {
    assert b[c].mines == MinesAround(b, sizeX, sizeY, c);
    MinedCountZero(b, Neighbors(sizeX, sizeY, c), q);
  }

  /** Adjacency counts lie in [0, 8]. */
  lemma AdjacencyBounded(b: Board, sizeX: int, sizeY: int, p: Pos)
    requires AdjacencyOk(b, sizeX, sizeY) && p in b
    ensures 0 <= b[p].mines <= 8
  {
    assert b[p].mines == MinesAround(b, sizeX, sizeY, p);
  }

  // Counting tiles by a property of the tile.

  /** The tile properties the counters and the win test count. */
  datatype Kind = IsMine | IsSafe | IsDefault | IsClicked | IsFlagged | IsCorrectFlag

  predicate Has(k: Kind, t: Tile) {
    match k
    case IsMine => t.isMine
    case IsSafe => !t.isMine
    case IsDefault => t.state == Default
    case IsClicked => t.state == Clicked
    case IsFlagged => t.state == Flagged
    case IsCorrectFlag => t.state == Flagged && t.isMine
  }

  /** The positions whose tile has property `k`. */
  function Where(b: Board, k: Kind): set<Pos> {
    set p | p in b && Has(k, b[p])
  }

  /** Replacing one tile changes a count by at most one, as the two tiles say. */
  lemma WhereUpdate(b: Board, p: Pos, t: Tile, k: Kind)
    requires p in b
    ensures |Where(b[p := t], k)| ==
            |Where(b, k)| - (if Has(k, b[p]) then 1 else 0) + (if Has(k, t) then 1 else 0)
  {
    var s, s' := Where(b, k), Where(b[p := t], k);
    if Has(k, t) {
      assert s' == s + {p};
    } else {
      assert s' == s - {p};
    }
  }

  /** The sum of the adjacency counts of the listed tiles. */
  function SumMines(b: Board, ps: seq<Pos>): int {
    if ps == [] then 0
    else SumMines(b, ps[..|ps| - 1]) + (if ps[|ps| - 1] in b then b[ps[|ps| - 1]].mines else 0)
  }

  lemma SumMinesSnoc(b: Board, ps: seq<Pos>, q: Pos)
    ensures SumMines(b, ps + [q]) == SumMines(b, ps) + (if q in b then b[q].mines else 0)
  {
    assert (ps + [q])[..|ps|] == ps;
  }

  /** Over a board whose counts are adjacency counts, the sum is never negative. */
  lemma {:induction false} SumMinesNonNegative(b: Board, sizeX: int, sizeY: int, ps: seq<Pos>)
    requires AdjacencyOk(b, sizeX, sizeY)
    ensures SumMines(b, ps) >= 0
  {
    if ps != [] {
      SumMinesNonNegative(b, sizeX, sizeY, ps[..|ps| - 1]);
      if ps[|ps| - 1] in b {
        AdjacencyBounded(b, sizeX, sizeY, ps[|ps| - 1]);
      }
    }
  }

  /** The keys of one row of the grid. */
  function Row(x: int, sizeY: int): set<Pos> {
    set y | 0 <= y < sizeY :: Pos(x, y)
  }

  lemma {:induction false} RowCard(x: int, sizeY: nat)
    ensures |Row(x, sizeY)| == sizeY
  {
    if sizeY > 0 {
      RowCard(x, sizeY - 1);
      assert Row(x, sizeY) == Row(x, sizeY - 1) + {Pos(x, sizeY - 1)};
    }
  }

  /** The grid `setup` builds has `NumTiles` tiles. */
  lemma {:induction false} CellsCard(sizeX: int, sizeY: int)
    ensures |Cells(sizeX, sizeY)| == NumTiles(sizeX, sizeY)
  {
    if sizeX <= 0 || sizeY <= 0 {
      assert Cells(sizeX, sizeY) == {};
    } else {
      var x := sizeX - 1;
      CellsCard(x, sizeY);
      RowCard(x, sizeY);
      CellsSplit(x, sizeY);
      ProductStep(x, sizeY);
    }
  }

  /** The grid with one more row is the old grid and a disjoint new row. */
  lemma CellsSplit(x: nat, sizeY: int)
    ensures |Cells(x + 1, sizeY)| == |Cells(x, sizeY)| + |Row(x, sizeY)|
  {
    assert Cells(x + 1, sizeY) == Cells(x, sizeY) + Row(x, sizeY);
    assert Cells(x, sizeY) * Row(x, sizeY) == {};
  }

  lemma ProductStep(x: nat, sizeY: nat)
    ensures NumTiles(x + 1, sizeY) == NumTiles(x, sizeY) + sizeY
  {
  }

  /** A board whose keys are the in-bounds positions has `NumTiles` tiles. */
  lemma BoardCard(b: Board, sizeX: int, sizeY: int)
    requires forall p :: p in b <==> InBounds(sizeX, sizeY, p)
    ensures b.Keys == Cells(sizeX, sizeY) && |b.Keys| == NumTiles(sizeX, sizeY)
  {
    assert b.Keys == Cells(sizeX, sizeY);
    CellsCard(sizeX, sizeY);
  }
}
