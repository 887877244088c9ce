/** The game engine of the `Minesweeper` class: the tile dictionary, the
    counters, seeding, the click handlers and the flood-fill reveal. */
module Engine {
  import opened Grid
  import opened FloodFill
  import opened EndGame

  datatype Option<T> = None | Some(value: T)

  /** Whether the game is running or `gameOver` has been reached. */
  datatype Status = Playing | Won | Lost

  /** The tile after a right click: DEFAULT and FLAGGED swap, CLICKED stays. */
  function FlagToggled(t: Tile): (r: Tile)
    ensures r.isMine == t.isMine && r.mines == t.mines
    ensures t.state == Default ==> r.state == Flagged
    ensures t.state == Flagged ==> r.state == Default
    ensures t.state == Clicked ==> r == t
  {
    match t.state
    case Default => t.(state := Flagged)
    case Flagged => t.(state := Default)
    case Clicked => t
  }

  /** The score value of the number images 1 to 8, in order. */
  const NumberValues: seq<int> := [1, 2, 3, 4, 5, 6, 7, 8]

  /** The points a revealed tile showing `mines` earns: the value of its
      number image, which is the count itself. */
  function PointValue(mines: int): (v: int)
    requires 1 <= mines <= 8
    ensures v == mines
  {
    NumberValues[mines - 1]
  }

  /** Revealing a DEFAULT tile keeps the grid, the adjacency counts and the
      flags, and moves one tile from DEFAULT to CLICKED. */
  lemma ClickKeeps(b: Board, sizeX: int, sizeY: int, p: Pos)
    requires p in b && b[p].state == Default
    requires (forall q :: q in b <==> InBounds(sizeX, sizeY, q)) && AdjacencyOk(b, sizeX, sizeY)
    ensures var b' := b[p := b[p].(state := Clicked)];
      && (forall q :: q in b' <==> InBounds(sizeX, sizeY, q))
      && AdjacencyOk(b', sizeX, sizeY)
      && |Where(b', IsFlagged)| == |Where(b, IsFlagged)|
      && |Where(b', IsCorrectFlag)| == |Where(b, IsCorrectFlag)|
      && |Where(b', IsClicked)| == |Where(b, IsClicked)| + 1
      && |Where(b', IsDefault)| == |Where(b, IsDefault)| - 1
  {
    var b' := b[p := b[p].(state := Clicked)];
    WhereUpdate(b, p, b'[p], IsFlagged);
    WhereUpdate(b, p, b'[p], IsCorrectFlag);
    WhereUpdate(b, p, b'[p], IsClicked);
    WhereUpdate(b, p, b'[p], IsDefault);
    assert SameLayout(b, b');
    AdjacencyFrame(b, b', sizeX, sizeY);
  }

  /** Toggling a flag keeps the grid, the adjacency counts and the revealed
      tiles, and moves the flag counts by one in the direction of the toggle. */
  lemma ToggleKeeps(b: Board, sizeX: int, sizeY: int, p: Pos)
    requires p in b && (forall q :: q in b <==> InBounds(sizeX, sizeY, q))
    requires AdjacencyOk(b, sizeX, sizeY) && NoRevealedMine(b)
    ensures var b' := b[p := FlagToggled(b[p])];
      && (forall q :: q in b' <==> InBounds(sizeX, sizeY, q))
      && AdjacencyOk(b', sizeX, sizeY)
      && NoRevealedMine(b')
      && |Where(b', IsClicked)| == |Where(b, IsClicked)|
      && |Where(b', IsFlagged)| == |Where(b, IsFlagged)| + FlagDelta(b[p])
      && |Where(b', IsCorrectFlag)| == |Where(b, IsCorrectFlag)| +
           (if b[p].isMine then FlagDelta(b[p]) else 0)
  {
    var b' := b[p := FlagToggled(b[p])];
    WhereUpdate(b, p, b'[p], IsFlagged);
    WhereUpdate(b, p, b'[p], IsCorrectFlag);
    WhereUpdate(b, p, b'[p], IsClicked);
    assert SameLayout(b, b');
    AdjacencyFrame(b, b', sizeX, sizeY);
  }

  /** A second right click undoes the first, and moves the flag count back. */
  lemma ToggleTwice(t: Tile)
    ensures FlagToggled(FlagToggled(t)) == t
    ensures FlagDelta(FlagToggled(t)) == -FlagDelta(t)
  {
  }

  /** How a right click on a tile in this state moves the flag count. */
  function FlagDelta(t: Tile): int {
    match t.state
    case Default => 1
    case Flagged => -1
    case Clicked => 0
  }

  /** A board whose tiles are all DEFAULT, with the mines of `seeded`, has
      no flag and no revealed tile and as many mines as `seeded`. */
  lemma UntouchedCounts(seeded: Board, b: Board)
    requires b.Keys == seeded.Keys
    requires forall p :: p in b ==> b[p].isMine == seeded[p].isMine && b[p].state == Default
    ensures |Where(b, IsFlagged)| == 0 && |Where(b, IsCorrectFlag)| == 0
    ensures |Where(b, IsClicked)| == 0
    ensures Where(b, IsMine) == Where(seeded, IsMine)
  {
    assert Where(b, IsFlagged) == {};
    assert Where(b, IsCorrectFlag) == {};
    assert Where(b, IsClicked) == {};
  }

  /** `b` is the seeded board `layout` with the adjacency count stored for
      every tile the counting loop of `setup` has visited, row by row, up
      to position (x, y). */
  ghost predicate CountedUpTo(layout: Board, b: Board, sizeX: int, sizeY: int, x: int, y: int) {
    && (forall p :: p in layout <==> InBounds(sizeX, sizeY, p))
    && b.Keys == layout.Keys
    && (forall p :: p in b ==> b[p].isMine == layout[p].isMine && b[p].state == layout[p].state)
    && (forall p {:trigger MinesAround(layout, sizeX, sizeY, p)} ::
          p in b && (p.x < x || (p.x == x && p.y < y)) ==>
          b[p].mines == MinesAround(layout, sizeX, sizeY, p))
  }

  lemma CountedStep(layout: Board, b: Board, sizeX: int, sizeY: int, x: int, y: int, mc: nat)
    requires CountedUpTo(layout, b, sizeX, sizeY, x, y)
    requires 0 <= x < sizeX && 0 <= y < sizeY
    requires mc == MinesAround(b, sizeX, sizeY, Pos(x, y))
    ensures Pos(x, y) in b
    ensures CountedUpTo(layout, b[Pos(x, y) := b[Pos(x, y)].(mines := mc)], sizeX, sizeY, x, y + 1)
  {
    var p := Pos(x, y);
    assert p in layout;
    MinedCountFrame(b, layout, Neighbors(sizeX, sizeY, p));
    var b' := b[p := b[p].(mines := mc)];
    assert b'.Keys == layout.Keys;
    forall q | q in b'
      ensures b'[q].isMine == layout[q].isMine && b'[q].state == layout[q].state
    {
    }
    forall q {:trigger MinesAround(layout, sizeX, sizeY, q)}
      | q in b' && (q.x < x || (q.x == x && q.y < y + 1))
      ensures b'[q].mines == MinesAround(layout, sizeX, sizeY, q)
    {
      if q != p {
        assert b'[q] == b[q];
      }
    }
  }

  lemma CountedRow(layout: Board, b: Board, sizeX: int, sizeY: int, x: int)
    requires CountedUpTo(layout, b, sizeX, sizeY, x, Span(sizeY))
    ensures CountedUpTo(layout, b, sizeX, sizeY, x + 1, 0)
  {
  }

  lemma CountedAll(layout: Board, b: Board, sizeX: int, sizeY: int)
    requires CountedUpTo(layout, b, sizeX, sizeY, Span(sizeX), 0)
    ensures AdjacencyOk(b, sizeX, sizeY)
  {
    AdjacencyFromLayout(layout, b, sizeX, sizeY);
  }

  /** The invariant of `seed_mines`: the grid keeps its keys, nothing is
      counted or revealed yet, and `minesLeft` mines remain to be placed. */
  ghost predicate Seeding(b: Board, sizeX: int, sizeY: int, mineAmount: int, minesLeft: int) {
    && (forall p :: p in b <==> InBounds(sizeX, sizeY, p))
    && (forall p :: p in b ==> b[p].mines == 0 && b[p].state == Default)
    && |Where(b, IsMine)| + minesLeft == mineAmount
  }

  /** Every tile before (x, y), in the row-by-row order of the sweep, is a mine. */
  ghost predicate Swept(b: Board, x: int, y: int) {
    forall p :: p in b && (p.x < x || (p.x == x && p.y < y)) ==> b[p].isMine
  }

  lemma SeedStep(b: Board, sizeX: int, sizeY: int, mineAmount: int, minesLeft: int, p: Pos)
    requires Seeding(b, sizeX, sizeY, mineAmount, minesLeft)
    requires p in b && !b[p].isMine
    ensures Seeding(b[p := b[p].(isMine := true)], sizeX, sizeY, mineAmount, minesLeft - 1)
  {
    WhereUpdate(b, p, b[p].(isMine := true), IsMine);
  }

  lemma SweptStep(b: Board, b': Board, x: int, y: int)
    requires Swept(b, x, y) && Pos(x, y) in b
    requires b' == b || (b' == b[Pos(x, y) := b[Pos(x, y)].(isMine := true)])
    requires b'[Pos(x, y)].isMine
    ensures Swept(b', x, y + 1)
  {
  }

  lemma SweptRow(b: Board, sizeX: int, sizeY: int, x: int)
    requires forall p :: p in b <==> InBounds(sizeX, sizeY, p)
    requires Swept(b, x, Span(sizeY))
    ensures Swept(b, x + 1, 0)
  {
  }

  /** A finished sweep has made every tile a mine. */
  lemma SweptAll(b: Board, sizeX: int, sizeY: int)
    requires forall p :: p in b <==> InBounds(sizeX, sizeY, p)
    requires Swept(b, Span(sizeX), 0)
    ensures |Where(b, IsMine)| == NumTiles(sizeX, sizeY)
  {
    assert Where(b, IsMine) == b.Keys;
    BoardCard(b, sizeX, sizeY);
  }

  /** `images` holds the end image of every tile before (x, y), in the
      row-by-row order of `gameOver`, whose image changes. */
  ghost predicate DrawnUpTo(b: Board, images: map<Pos, EndImage>, x: int, y: int) {
    && (forall q :: q in images <==>
          q in b && (q.x < x || (q.x == x && q.y < y)) && EndImageOf(b[q]) != Unchanged)
    && (forall q :: q in images ==> images[q] == EndImageOf(b[q]))
  }

  lemma DrawnStep(b: Board, images: map<Pos, EndImage>, images': map<Pos, EndImage>, x: int, y: int)
    requires DrawnUpTo(b, images, x, y) && Pos(x, y) in b
    requires EndImageOf(b[Pos(x, y)]) == Unchanged ==> images' == images
    requires EndImageOf(b[Pos(x, y)]) != Unchanged ==>
      images' == images[Pos(x, y) := EndImageOf(b[Pos(x, y)])]
    ensures DrawnUpTo(b, images', x, y + 1)
  {
  }

  lemma DrawnRow(b: Board, images: map<Pos, EndImage>, sizeX: int, sizeY: int, x: int)
    requires forall p :: p in b <==> InBounds(sizeX, sizeY, p)
    requires DrawnUpTo(b, images, x, Span(sizeY))
    ensures DrawnUpTo(b, images, x + 1, 0)
  {
  }

  lemma DrawnAll(b: Board, images: map<Pos, EndImage>, sizeX: int, sizeY: int)
    requires forall p :: p in b <==> InBounds(sizeX, sizeY, p)
    requires DrawnUpTo(b, images, Span(sizeX), 0)
    ensures images == EndImages(b)
  {
    assert images.Keys == EndImages(b).Keys;
  }

  /** Marking the clicked tile after the fill extends the record of revealed
      tiles by that tile, and keeps the fill closed. */
  lemma MarkKeeps(b0: Board, b: Board, sizeX: int, sizeY: int, p: Pos, filled: seq<Pos>)
    requires Tracked(b0, b, filled)
    requires p in b && b[p].state == Default && !b[p].isMine
    ensures var b' := b[p := b[p].(state := Clicked)];
      && Tracked(b0, b', filled + [p])
      && SumMines(b0, filled + [p]) == SumMines(b0, filled) + b0[p].mines
      && (FillClosed(b0, b, sizeX, sizeY, p, filled) ==>
          FillClosed(b0, b', sizeX, sizeY, p, filled + [p]))
  {
    var b' := b[p := b[p].(state := Clicked)];
    TrackedStep(b0, b, filled, p, b');
    assert SameLayout(b0, b);
    SumMinesSnoc(b0, filled, p);
    if FillClosed(b0, b, sizeX, sizeY, p, filled) {
      ClosedKept(b, sizeX, sizeY, p, p);
      forall q | q in filled + [p] && q in b0 && b0[q].mines == 0
        ensures Closed(b', sizeX, sizeY, q)
      {
        if q != p {
          ClosedKept(b, sizeX, sizeY, q, p);
        }
      }
    }
  }

  class Minesweeper {
    const sizeX: int
    const sizeY: int
    const mineAmount: int

    var tiles: Board
    var flagCount: int
    var correctFlagCount: int
    var clickedCount: int
    var score: int
    /** The time of the first click of the game, if any. */
    var startTime: Option<int>
    var status: Status

    /** The grid has exactly the in-bounds keys, the counts are adjacency
        counts, the counters are the sizes of the tile sets they count, and
        the score is not negative. */
    ghost predicate Consistent()
      reads this`tiles, this`flagCount, this`correctFlagCount, this`clickedCount, this`score
    {
      && (forall p :: p in tiles <==> InBounds(sizeX, sizeY, p))
      && AdjacencyOk(tiles, sizeX, sizeY)
      && flagCount == |Where(tiles, IsFlagged)|
      && correctFlagCount == |Where(tiles, IsCorrectFlag)|
      && clickedCount == |Where(tiles, IsClicked)|
      && score >= 0
    }

    /** The engine invariant: `Consistent` and no mine has been revealed. */
    ghost predicate Valid()
      reads this`tiles, this`flagCount, this`correctFlagCount, this`clickedCount, this`score
    {
      Consistent() && NoRevealedMine(tiles)
    }

    /** Stores the sizes and the mine amount; the grid is built by `Restart`. */
    constructor (mineAmount: int, sizeX: int, sizeY: int)
      ensures this.mineAmount == mineAmount && this.sizeX == sizeX && this.sizeY == sizeY
      ensures tiles == map[] && status == Playing
    {
      this.mineAmount := mineAmount;
      this.sizeX := sizeX;
      this.sizeY := sizeY;
      tiles := map[];
      flagCount, correctFlagCount, clickedCount, score := 0, 0, 0, 0;
      startTime := None;
      status := Playing;
    }

    /** `restart`: a fresh game on a newly seeded board. */
    method Restart(coin: nat -> bool, maxPasses: nat) returns (done: bool)
      modifies this
      ensures Valid() && status == Playing && startTime == None
      ensures flagCount == 0 && correctFlagCount == 0 && clickedCount == 0 && score == 0
      ensures forall p :: p in tiles ==> tiles[p].state == Default
      ensures |Where(tiles, IsMine)| <= Span(mineAmount)
      ensures done <==> |Where(tiles, IsMine)| == Span(mineAmount)
      ensures (forall k :: coin(k)) && maxPasses >= 1 && mineAmount <= NumTiles(sizeX, sizeY) ==> done
    {
      done := Setup(coin, maxPasses);
      status := Playing;
    }

    /** `setup`: builds the grid, seeds the mines and computes every
        tile's adjacency count. */
    method Setup(coin: nat -> bool, maxPasses: nat) returns (done: bool)
      modifies this
      ensures Valid() && status == old(status) && startTime == None
      ensures flagCount == 0 && correctFlagCount == 0 && clickedCount == 0 && score == 0
      ensures forall p :: p in tiles ==> tiles[p].state == Default
      ensures |Where(tiles, IsMine)| <= Span(mineAmount)
      ensures done <==> |Where(tiles, IsMine)| == Span(mineAmount)
      ensures (forall k :: coin(k)) && maxPasses >= 1 && mineAmount <= NumTiles(sizeX, sizeY) ==> done
    {
      flagCount, correctFlagCount, clickedCount := 0, 0, 0;
      startTime := None;
      score := 0;
      BuildTiles();
      done := SeedMines(coin, maxPasses);
      ghost var seeded := tiles;
      CountAdjacency();
      UntouchedCounts(seeded, tiles);
    }

    /** The first loop of `setup`: one fresh tile per in-bounds coordinate. */
    method BuildTiles()
      modifies this`tiles
      ensures forall p :: p in tiles <==> InBounds(sizeX, sizeY, p)
      ensures forall p :: p in tiles ==> tiles[p] == Fresh
    {
      tiles := map[];
      for x := 0 to Span(sizeX)
        invariant forall p :: p in tiles <==> InBounds(sizeX, sizeY, p) && p.x < x
        invariant forall p :: p in tiles ==> tiles[p] == Fresh
      {
        for y := 0 to Span(sizeY)
          invariant forall p :: p in tiles <==>
            InBounds(sizeX, sizeY, p) && (p.x < x || (p.x == x && p.y < y))
          invariant forall p :: p in tiles ==> tiles[p] == Fresh
        {
          tiles := tiles[Pos(x, y) := Fresh];
        }
      }
    }

    /** The last loop of `setup`: stores each tile's adjacency count. */
    method CountAdjacency()
      requires forall p :: p in tiles <==> InBounds(sizeX, sizeY, p)
      modifies this`tiles
      ensures tiles.Keys == old(tiles).Keys
      ensures forall p :: p in tiles ==>
        tiles[p].isMine == old(tiles)[p].isMine && tiles[p].state == old(tiles)[p].state
      ensures AdjacencyOk(tiles, sizeX, sizeY)
    {
      ghost var layout := tiles;
      for x := 0 to Span(sizeX)
        invariant CountedUpTo(layout, tiles, sizeX, sizeY, x, 0)
      {
        for y := 0 to Span(sizeY)
          invariant CountedUpTo(layout, tiles, sizeX, sizeY, x, y)
        {
          var p := Pos(x, y);
          var mc := CountMinesAround(p);
          CountedStep(layout, tiles, sizeX, sizeY, x, y, mc);
          tiles := tiles[p := tiles[p].(mines := mc)];
        }
        CountedRow(layout, tiles, sizeX, sizeY, x);
      }
      CountedAll(layout, tiles, sizeX, sizeY);
    }

    /** The mine count of the tiles around `p`, as the loop in `setup`
        accumulates it over `getNeighbors`. */
    method CountMinesAround(p: Pos) returns (mc: nat)
      ensures mc == MinesAround(tiles, sizeX, sizeY, p)
    {
      var ns := Neighbors(sizeX, sizeY, p);
      mc := 0;
      for k := 0 to |ns|
        invariant mc == MinedCount(tiles, ns[..k])
      {
        assert ns[..k + 1][..k] == ns[..k];
        if ns[k] in tiles && tiles[ns[k]].isMine {
          mc := mc + 1;
        }
      }
      assert ns[..|ns|] == ns;
    }

    /** `seed_mines`: scans the grid row by row, drawing one coin per visited
        tile and mining an unmined tile when its coin comes up, until
        `mineAmount` mines are placed. `coin(k)` is the outcome of the k-th
        draw; `maxPasses` bounds the number of scans. */
    method SeedMines(coin: nat -> bool, maxPasses: nat) returns (done: bool)
      requires forall p :: p in tiles <==> InBounds(sizeX, sizeY, p)
      requires forall p :: p in tiles ==> tiles[p] == Fresh
      modifies this`tiles
      ensures tiles.Keys == old(tiles).Keys
      ensures forall p :: p in tiles ==> tiles[p].mines == 0 && tiles[p].state == Default
      ensures |Where(tiles, IsMine)| <= Span(mineAmount)
      ensures done <==> |Where(tiles, IsMine)| == Span(mineAmount)
      ensures (forall k :: coin(k)) && maxPasses >= 1 && mineAmount <= NumTiles(sizeX, sizeY) ==> done
    {
      ghost var allTrue := forall k :: coin(k);
      assert Where(tiles, IsMine) == {};
      var minesLeft := mineAmount;
      var draw: nat := 0;
      var pass: nat := 0;
      while minesLeft > 0 && pass < maxPasses
        invariant Seeding(tiles, sizeX, sizeY, mineAmount, minesLeft)
        invariant minesLeft >= 0 || minesLeft == mineAmount
        invariant allTrue && pass >= 1 && mineAmount <= NumTiles(sizeX, sizeY) ==> minesLeft <= 0
        decreases maxPasses - pass
      {
        for x := 0 to Span(sizeX)
          invariant Seeding(tiles, sizeX, sizeY, mineAmount, minesLeft) && minesLeft >= 0
          invariant allTrue && pass == 0 ==> Swept(tiles, x, 0)
        {
          for y := 0 to Span(sizeY)
            invariant Seeding(tiles, sizeX, sizeY, mineAmount, minesLeft) && minesLeft >= 0
            invariant allTrue && pass == 0 ==> Swept(tiles, x, y)
          {
            if minesLeft < 1 {
              done := true;
              return;
            }
            var p := Pos(x, y);
            var cond1 := coin(draw);
            draw := draw + 1;
            var cond2 := !tiles[p].isMine;
            ghost var b := tiles;
            if cond1 && cond2 {
              SeedStep(tiles, sizeX, sizeY, mineAmount, minesLeft, p);
              tiles := tiles[p := tiles[p].(isMine := true)];
              minesLeft := minesLeft - 1;
            }
            if allTrue && pass == 0 {
              SweptStep(b, tiles, x, y);
            }
          }
          if allTrue && pass == 0 {
            SweptRow(tiles, sizeX, sizeY, x);
          }
        }
        if allTrue && pass == 0 {
          SweptAll(tiles, sizeX, sizeY);
        }
        pass := pass + 1;
      }
      done := minesLeft < 1;
    }

    /** `onRightClick`: toggles a flag and keeps the flag counters. */
    method OnRightClick(p: Pos, now: int)
      requires Valid() && status == Playing && p in tiles
      modifies this
      ensures Valid() && status == old(status)
      ensures startTime == if old(startTime) == None then Some(now) else old(startTime)
      ensures tiles == old(tiles)[p := FlagToggled(old(tiles)[p])]
      ensures old(tiles)[p].state == Default ==>
        flagCount == old(flagCount) + 1 &&
        correctFlagCount == old(correctFlagCount) + (if old(tiles)[p].isMine then 1 else 0)
      ensures old(tiles)[p].state == Flagged ==>
        flagCount == old(flagCount) - 1 &&
        correctFlagCount == old(correctFlagCount) - (if old(tiles)[p].isMine then 1 else 0)
      ensures old(tiles)[p].state == Clicked ==>
        flagCount == old(flagCount) && correctFlagCount == old(correctFlagCount)
      ensures clickedCount == old(clickedCount) && score == old(score)
    {
      if startTime == None {
        startTime := Some(now);
      }
      ToggleKeeps(tiles, sizeX, sizeY, p);
      var t := tiles[p];
      if t.state == Default {
        tiles := tiles[p := FlagToggled(t)];
        if t.isMine {
          correctFlagCount := correctFlagCount + 1;
        }
        flagCount := flagCount + 1;
      } else if t.state == Flagged {
        tiles := tiles[p := FlagToggled(t)];
        if t.isMine {
          correctFlagCount := correctFlagCount - 1;
        }
        flagCount := flagCount - 1;
      } else {
        assert tiles[p := FlagToggled(t)] == tiles;
      }
    }

    /** `clearTile`: reveals a DEFAULT tile, adds its count to the score, and
        queues it for expansion when its count is zero. */
    method ClearTile(p: Pos, queue: seq<Pos>) returns (queue': seq<Pos>)
      requires Consistent() && p in tiles
      modifies this
      ensures Consistent()
      ensures flagCount == old(flagCount) && correctFlagCount == old(correctFlagCount)
      ensures status == old(status) && startTime == old(startTime)
      ensures old(tiles)[p].state != Default ==>
        tiles == old(tiles) && clickedCount == old(clickedCount) &&
        score == old(score) && queue' == queue
      ensures old(tiles)[p].state == Default ==>
        && tiles == old(tiles)[p := old(tiles)[p].(state := Clicked)]
        && clickedCount == old(clickedCount) + 1
        && score == old(score) + old(tiles)[p].mines
        && queue' == (if old(tiles)[p].mines == 0 then queue + [p] else queue)
      ensures |Where(tiles, IsDefault)| ==
        |Where(old(tiles), IsDefault)| - (if old(tiles)[p].state == Default then 1 else 0)
    {
      var t := tiles[p];
      if t.state != Default {
        return queue;
      }
      AdjacencyBounded(tiles, sizeX, sizeY, p);
      if t.mines == 0 {
        queue' := queue + [p];
      } else {
        score := score + PointValue(t.mines);
        queue' := queue;
      }
      ClickKeeps(tiles, sizeX, sizeY, p);
      tiles := tiles[p := t.(state := Clicked)];
      clickedCount := clickedCount + 1;
    }

    /** `clearSurroundingTiles`: breadth-first reveal from the zero tile
        `start` over a work queue of coordinates. `revealed` lists the tiles
        the fill turned from DEFAULT to CLICKED, in order. */
    method ClearSurroundingTiles(start: Pos) returns (ghost revealed: seq<Pos>)
      requires Valid() && start in tiles && tiles[start].mines == 0
      modifies this
      ensures Valid() && Tracked(old(tiles), tiles, revealed)
      ensures flagCount == old(flagCount) && correctFlagCount == old(correctFlagCount)
      ensures status == old(status) && startTime == old(startTime)
      ensures clickedCount == old(clickedCount) + |revealed|
      ensures score == old(score) + SumMines(old(tiles), revealed)
      ensures FillClosed(old(tiles), tiles, sizeX, sizeY, start, revealed)
      ensures Sound(old(tiles), sizeX, sizeY, start, revealed)
    {
      revealed := [];
      var queue := [start];
      ghost var processed: set<Pos> := {};
      FillStart(tiles, sizeX, sizeY, start);
      while queue != []
        invariant Consistent()
        invariant FillInv(old(tiles), tiles, sizeX, sizeY, start, queue, processed, revealed)
        invariant flagCount == old(flagCount) && correctFlagCount == old(correctFlagCount)
        invariant status == old(status) && startTime == old(startTime)
        invariant clickedCount == old(clickedCount) + |revealed|
        invariant score == old(score) + SumMines(old(tiles), revealed)
        decreases |Where(tiles, IsDefault)| + |queue|
      {
        FillPop(old(tiles), tiles, sizeX, sizeY, start, queue, processed, revealed);
        var c := queue[0];
        queue := queue[1..];
        queue, revealed := ClearNeighbors(old(tiles), start, c, queue, processed, revealed,
                                          old(clickedCount), old(score));
        FillProcessed(old(tiles), tiles, sizeX, sizeY, start, c, queue, processed, revealed);
        processed := processed + {c};
      }
      FillDone(old(tiles), tiles, sizeX, sizeY, start, processed, revealed);
    }

    /** The `for` loop of `clearSurroundingTiles`: clears each neighbour of
        the dequeued zero tile `c`, appending the zero tiles it reveals to the
        queue. `b0` is the board before the fill started, and `clicked0` and
        `score0` the counters then. */
    method ClearNeighbors(ghost b0: Board, ghost start: Pos, c: Pos, queue: seq<Pos>,
                          ghost processed: set<Pos>, ghost revealed: seq<Pos>,
                          ghost clicked0: int, ghost score0: int)
      returns (queue': seq<Pos>, ghost revealed': seq<Pos>)
      requires Consistent()
      requires InnerInv(b0, tiles, sizeX, sizeY, start, c, queue, processed, revealed, 0)
      requires clickedCount == clicked0 + |revealed| && score == score0 + SumMines(b0, revealed)
      modifies this
      ensures Consistent()
      ensures InnerInv(b0, tiles, sizeX, sizeY, start, c, queue', processed, revealed',
                       |Neighbors(sizeX, sizeY, c)|)
      ensures clickedCount == clicked0 + |revealed'| && score == score0 + SumMines(b0, revealed')
      ensures flagCount == old(flagCount) && correctFlagCount == old(correctFlagCount)
      ensures status == old(status) && startTime == old(startTime)
      ensures |Where(tiles, IsDefault)| + |queue'| <= |Where(old(tiles), IsDefault)| + |queue|
    {
      queue', revealed' := queue, revealed;
      var ns := Neighbors(sizeX, sizeY, c);
      for k := 0 to |ns|
        invariant Consistent()
        invariant InnerInv(b0, tiles, sizeX, sizeY, start, c, queue', processed, revealed', k)
        invariant clickedCount == clicked0 + |revealed'| && score == score0 + SumMines(b0, revealed')
        invariant flagCount == old(flagCount) && correctFlagCount == old(correctFlagCount)
        invariant status == old(status) && startTime == old(startTime)
        invariant |Where(tiles, IsDefault)| + |queue'| <= |Where(old(tiles), IsDefault)| + |queue|
      {
        queue', revealed' := ClearNext(b0, start, c, k, queue', processed, revealed', clicked0, score0);
      }
    }

    /** One iteration of that loop: `clearTile` on the `k`-th neighbour of `c`. */
    method ClearNext(ghost b0: Board, ghost start: Pos, c: Pos, k: nat, queue: seq<Pos>,
                     ghost processed: set<Pos>, ghost revealed: seq<Pos>,
                     ghost clicked0: int, ghost score0: int)
      returns (queue': seq<Pos>, ghost revealed': seq<Pos>)
      requires Consistent() && k < |Neighbors(sizeX, sizeY, c)|
      requires InnerInv(b0, tiles, sizeX, sizeY, start, c, queue, processed, revealed, k)
      requires clickedCount == clicked0 + |revealed| && score == score0 + SumMines(b0, revealed)
      modifies this
      ensures Consistent()
      ensures InnerInv(b0, tiles, sizeX, sizeY, start, c, queue', processed, revealed', k + 1)
      ensures clickedCount == clicked0 + |revealed'| && score == score0 + SumMines(b0, revealed')
      ensures flagCount == old(flagCount) && correctFlagCount == old(correctFlagCount)
      ensures status == old(status) && startTime == old(startTime)
      ensures |Where(tiles, IsDefault)| + |queue'| <= |Where(old(tiles), IsDefault)| + |queue|
    {
      var q := Neighbors(sizeX, sizeY, c)[k];
      ghost var b := tiles;
      queue' := ClearTile(q, queue);
      FillClear(b0, b, sizeX, sizeY, start, c, queue, processed, revealed, k, tiles, queue');
      revealed' := revealed;
      if b[q].state == Default {
        SumMinesSnoc(b0, revealed, q);
        revealed' := revealed + [q];
      }
    }

    /** `onClick` on a tile that is not flagged (a flag unbinds the click).
        A mine ends the game as lost. Otherwise a zero tile starts the flood
        fill and a numbered tile adds its points to the score, even when it
        was revealed before; the tile is then marked CLICKED if it is not
        yet, and the game is won once the clicked count reaches the number
        of tiles minus the mine amount. `filled` lists the tiles the flood
        fill revealed, `revealed` every tile this click revealed, and
        `images` the buttons redrawn when the game ended. */
    method OnClick(p: Pos, now: int)
      returns (ghost filled: seq<Pos>, ghost revealed: seq<Pos>, images: map<Pos, EndImage>)
      requires Valid() && status == Playing && p in tiles && tiles[p].state != Flagged
      modifies this
      ensures startTime == if old(startTime) == None then Some(now) else old(startTime)
      ensures flagCount == old(flagCount) && correctFlagCount == old(correctFlagCount)
      ensures score >= old(score)
      ensures old(tiles)[p].isMine ==>
        && tiles == old(tiles) && clickedCount == old(clickedCount) && score == old(score)
        && status == Lost && images == EndImages(tiles) && filled == [] && revealed == []
      ensures !old(tiles)[p].isMine ==>
        && Valid()
        && Tracked(old(tiles), tiles, revealed)
        && tiles[p].state == Clicked
        && clickedCount == old(clickedCount) + |revealed|
        && status == (if clickedCount == sizeX * sizeY - mineAmount then Won else Playing)
        && images == (if status == Won then EndImages(tiles) else map[])
      ensures !old(tiles)[p].isMine && old(tiles)[p].mines == 0 ==>
        && revealed == (if old(tiles)[p].state == Default && p !in filled then filled + [p] else filled)
        && score == old(score) + SumMines(old(tiles), revealed)
        && Sound(old(tiles), sizeX, sizeY, p, filled)
        && FillClosed(old(tiles), tiles, sizeX, sizeY, p, revealed)
      ensures !old(tiles)[p].isMine && old(tiles)[p].mines != 0 ==>
        && filled == []
        && revealed == (if old(tiles)[p].state == Default then [p] else [])
        && score == old(score) + old(tiles)[p].mines
    {
      if startTime == None {
        startTime := Some(now);
      }
      var t := tiles[p];
      if t.isMine {
        filled, revealed := [], [];
        images := GameOver(false);
        return;
      }
      filled, revealed := Uncover(p);
      if clickedCount == sizeX * sizeY - mineAmount {
        images := GameOver(true);
      } else {
        images := map[];
      }
    }

    /** The part of `onClick` for a safe tile, up to the win test: the flood
        fill or the score update, then the CLICKED mark. */
    method Uncover(p: Pos) returns (ghost filled: seq<Pos>, ghost revealed: seq<Pos>)
      requires Valid() && p in tiles && tiles[p].state != Flagged && !tiles[p].isMine
      modifies this
      ensures startTime == old(startTime) && status == old(status)
      ensures flagCount == old(flagCount) && correctFlagCount == old(correctFlagCount)
      ensures Valid() && score >= old(score)
      ensures Tracked(old(tiles), tiles, revealed)
      ensures tiles[p].state == Clicked
      ensures clickedCount == old(clickedCount) + |revealed|
      ensures old(tiles)[p].mines == 0 ==>
        && revealed == (if old(tiles)[p].state == Default && p !in filled then filled + [p] else filled)
        && score == old(score) + SumMines(old(tiles), revealed)
        && Sound(old(tiles), sizeX, sizeY, p, filled)
        && FillClosed(old(tiles), tiles, sizeX, sizeY, p, revealed)
      ensures old(tiles)[p].mines != 0 ==>
        && filled == []
        && revealed == (if old(tiles)[p].state == Default then [p] else [])
        && score == old(score) + old(tiles)[p].mines
    {
      if tiles[p].mines == 0 {
        filled, revealed := OpenZero(p);
      } else {
        filled := [];
        revealed := OpenNumber(p);
      }
    }

    /** `onClick` on a safe zero tile: the flood fill, then the CLICKED mark. */
    method OpenZero(p: Pos) returns (ghost filled: seq<Pos>, ghost revealed: seq<Pos>)
      requires Valid() && p in tiles && tiles[p].state != Flagged && !tiles[p].isMine
      requires tiles[p].mines == 0
      modifies this
      ensures startTime == old(startTime) && status == old(status)
      ensures flagCount == old(flagCount) && correctFlagCount == old(correctFlagCount)
      ensures Valid() && Tracked(old(tiles), tiles, revealed)
      ensures tiles[p].state == Clicked
      ensures clickedCount == old(clickedCount) + |revealed|
      ensures revealed == (if old(tiles)[p].state == Default && p !in filled then filled + [p] else filled)
      ensures score == old(score) + SumMines(old(tiles), revealed) && score >= old(score)
      ensures Sound(old(tiles), sizeX, sizeY, p, filled)
      ensures FillClosed(old(tiles), tiles, sizeX, sizeY, p, revealed)
    {
      filled := ClearSurroundingTiles(p);
      ghost var b := tiles;
      var marked := MarkClicked(p);
      revealed := if marked then filled + [p] else filled;
      if marked {
        MarkKeeps(old(tiles), b, sizeX, sizeY, p, filled);
      }
      SumMinesNonNegative(old(tiles), sizeX, sizeY, revealed);
    }

    /** `onClick` on a safe numbered tile: the score grows by its points even
        when it is revealed already, then the CLICKED mark. */
    method OpenNumber(p: Pos) returns (ghost revealed: seq<Pos>)
      requires Valid() && p in tiles && tiles[p].state != Flagged && !tiles[p].isMine
      requires tiles[p].mines != 0
      modifies this
      ensures startTime == old(startTime) && status == old(status)
      ensures flagCount == old(flagCount) && correctFlagCount == old(correctFlagCount)
      ensures Valid() && Tracked(old(tiles), tiles, revealed)
      ensures tiles[p].state == Clicked
      ensures clickedCount == old(clickedCount) + |revealed|
      ensures revealed == (if old(tiles)[p].state == Default then [p] else [])
      ensures score == old(score) + old(tiles)[p].mines && score > old(score)
    {
      AdjacencyBounded(tiles, sizeX, sizeY, p);
      score := score + PointValue(tiles[p].mines);
      ghost var b := tiles;
      var marked := MarkClicked(p);
      revealed := if marked then [p] else [];
      if marked {
        MarkKeeps(old(tiles), b, sizeX, sizeY, p, []);
      }
    }

    /** The end of `onClick`: marks the tile CLICKED and counts it, unless
        it is CLICKED already. */
    method MarkClicked(p: Pos) returns (marked: bool)
      requires Valid() && p in tiles && tiles[p].state != Flagged && !tiles[p].isMine
      modifies this`tiles, this`clickedCount
      ensures Valid() && tiles[p].state == Clicked
      ensures marked <==> old(tiles)[p].state == Default
      ensures marked ==> tiles == old(tiles)[p := old(tiles)[p].(state := Clicked)] &&
                         clickedCount == old(clickedCount) + 1
      ensures !marked ==> tiles == old(tiles) && clickedCount == old(clickedCount)
    {
      marked := tiles[p].state != Clicked;
      if marked {
        ClickKeeps(tiles, sizeX, sizeY, p);
        tiles := tiles[p := tiles[p].(state := Clicked)];
        clickedCount := clickedCount + 1;
      }
    }

    /** `gameOver`: draws the end images and shows the result. The dialog
        that follows either calls `Restart` or quits. */
    method GameOver(won: bool) returns (images: map<Pos, EndImage>)
      requires forall p :: p in tiles <==> InBounds(sizeX, sizeY, p)
      modifies this`status
      ensures status == (if won then Won else Lost)
      ensures images == EndImages(tiles)
    {
      images := map[];
      for x := 0 to Span(sizeX)
        invariant DrawnUpTo(tiles, images, x, 0)
      {
        for y := 0 to Span(sizeY)
          invariant DrawnUpTo(tiles, images, x, y)
        {
          var p := Pos(x, y);
          ghost var before := images;
          var t := tiles[p];
          if !t.isMine && t.state == Flagged {
            images := images[p := Wrong];
          }
          if t.isMine && t.state != Flagged {
            images := images[p := ShowMine];
          }
          DrawnStep(tiles, before, images, x, y);
        }
        DrawnRow(tiles, images, sizeX, sizeY, x);
      }
      DrawnAll(tiles, images, sizeX, sizeY);
      status := if won then Won else Lost;
    }
  }
}
