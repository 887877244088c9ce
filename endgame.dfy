/** What `gameOver` draws over the grid before asking to play again: a
    mine image on every mine that is not flagged and a "wrong" image on
    every flag that is not on a mine; every other button keeps its image. */
module EndGame {
  import opened Grid

  datatype EndImage = Wrong | ShowMine | Unchanged

  /** The image `gameOver` gives one tile. */
  function EndImageOf(t: Tile): (r: EndImage)
    ensures r == Wrong <==> !t.isMine && t.state == Flagged
    ensures r == ShowMine <==> t.isMine && t.state != Flagged
    ensures r == Unchanged <==> (t.isMine <==> t.state == Flagged)
  {
    if !t.isMine && t.state == Flagged then Wrong
    else if t.isMine && t.state != Flagged then ShowMine
    else Unchanged
  }

  /** The buttons `gameOver` redraws, with the image each one gets. */
  function EndImages(b: Board): (r: map<Pos, EndImage>)
    ensures forall p :: p in r <==> p in b && EndImageOf(b[p]) != Unchanged
    ensures forall p :: p in r ==> r[p] == EndImageOf(b[p])
  {
    map p | p in b && EndImageOf(b[p]) != Unchanged :: EndImageOf(b[p])
  }

  /** On a board where no mine was revealed, a revealed tile keeps its image. */
  lemma RevealedTileKept(b: Board, p: Pos)
    requires NoRevealedMine(b) && p in b && b[p].state == Clicked
    ensures p !in EndImages(b)
  {
    assert !b[p].isMine;
  }

  /** A correctly flagged mine keeps its flag, an unflagged mine is shown
      and a flag on a safe tile is marked wrong. */
  lemma FlagsJudged(b: Board, p: Pos)
    requires p in b
    ensures b[p].isMine && b[p].state == Flagged ==> p !in EndImages(b)
    ensures b[p].isMine && b[p].state != Flagged ==> EndImages(b)[p] == ShowMine
    ensures !b[p].isMine && b[p].state == Flagged ==> EndImages(b)[p] == Wrong
  {
  }
}
