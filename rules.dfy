/** What the counters of a consistent grid say about the game: revealed
    tiles never outnumber the safe ones, and the win test at the end of
    `onClick` means that every safe tile is revealed. Stated over board
    values, as the engine invariant sees them. */
module Rules {
  import opened Grid

  /** In a grid with exactly the in-bounds keys, every tile is a mine or safe. */
  lemma {:induction false} SafeCount(b: Board, sizeX: int, sizeY: int)
    requires forall p :: p in b <==> InBounds(sizeX, sizeY, p)
    ensures |Where(b, IsSafe)| == NumTiles(sizeX, sizeY) - |Where(b, IsMine)|
  {
    BoardCard(b, sizeX, sizeY);
    assert Where(b, IsSafe) + Where(b, IsMine) == b.Keys;
    assert Where(b, IsSafe) * Where(b, IsMine) == {};
  }

  /** No mine is revealed, so the revealed tiles are among the safe ones. */
  lemma ClickedAreSafe(b: Board)
    requires NoRevealedMine(b)
    ensures Where(b, IsClicked) <= Where(b, IsSafe)
    ensures |Where(b, IsClicked)| <= |Where(b, IsSafe)|
  {
    var c, s := Where(b, IsClicked), Where(b, IsSafe);
    assert c <= s;
    assert s == c + (s - c);
    assert |s| == |c| + |s - c|;
  }

  /** A subset as large as its superset is the whole superset. */
  lemma SubsetOfSameSize<T>(a: set<T>, s: set<T>)
    requires a <= s && |a| == |s|
    ensures a == s
  {
    assert |s - a| == |s| - |a|;
  }

  /** The win test of `onClick`: once the grid holds `mineAmount` mines, the
      clicked count reaches `sizeX * sizeY - mineAmount` exactly when every
      safe tile is revealed. */
  lemma WonIffAllSafeClicked(b: Board, sizeX: nat, sizeY: nat, mineAmount: int)
    requires forall p :: p in b <==> InBounds(sizeX, sizeY, p)
    requires NoRevealedMine(b) && |Where(b, IsMine)| == mineAmount
    ensures |Where(b, IsClicked)| == sizeX * sizeY - mineAmount <==>
      forall p :: p in b && !b[p].isMine ==> b[p].state == Clicked
  {
    SafeCount(b, sizeX, sizeY);
    ClickedAreSafe(b);
    if |Where(b, IsClicked)| == sizeX * sizeY - mineAmount {
      SubsetOfSameSize(Where(b, IsClicked), Where(b, IsSafe));
      forall p | p in b && !b[p].isMine
        ensures b[p].state == Clicked
      {
        assert p in Where(b, IsSafe);
      }
    }
    if forall p :: p in b && !b[p].isMine ==> b[p].state == Clicked {
      assert Where(b, IsClicked) == Where(b, IsSafe);
    }
  }

  /** With a negative mine amount and non-negative sizes the win test can
      never pass: the target exceeds the number of tiles. */
  lemma NegativeMinesUnwinnable(b: Board, sizeX: nat, sizeY: nat, mineAmount: int)
    requires forall p :: p in b <==> InBounds(sizeX, sizeY, p)
    requires NoRevealedMine(b) && mineAmount < 0
    ensures |Where(b, IsClicked)| != sizeX * sizeY - mineAmount
  {
    SafeCount(b, sizeX, sizeY);
    ClickedAreSafe(b);
  }

  /** A grid without tiles never holds a mine, so seeding it never reaches a
      positive mine amount. */
  lemma EmptyGridNeverSeeded(b: Board, sizeX: int, sizeY: int, mineAmount: int)
    requires forall p :: p in b <==> InBounds(sizeX, sizeY, p)
    requires NumTiles(sizeX, sizeY) == 0 && mineAmount > 0
    ensures |Where(b, IsMine)| < Span(mineAmount)
  {
    BoardCard(b, sizeX, sizeY);
    assert Where(b, IsMine) <= b.Keys;
    assert Where(b, IsMine) == {};
  }
}
