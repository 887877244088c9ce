/** Starting a game: the constructor's mine guard and the start window's
    input check in front of it. */
module App {
  import opened Grid
  import opened Engine
  import opened Input
  import opened Rules

  /** `Minesweeper(tk, mine_amount, size_x, size_y)`: raises `ValueError`
      (here `None`) when there are more mines than `size_x * size_y`, and
      otherwise starts the first game with `restart`. */
  method NewGame(mineAmount: int, sizeX: int, sizeY: int, coin: nat -> bool, maxPasses: nat)
    returns (g: Option<Minesweeper>, done: bool)
    ensures g.None? <==> mineAmount > sizeX * sizeY
    ensures g.Some? ==>
      && fresh(g.value)
      && g.value.mineAmount == mineAmount && g.value.sizeX == sizeX && g.value.sizeY == sizeY
      && g.value.Valid() && g.value.status == Playing && g.value.startTime == None
      && g.value.flagCount == 0 && g.value.correctFlagCount == 0
      && g.value.clickedCount == 0 && g.value.score == 0
      && (forall p :: p in g.value.tiles ==> g.value.tiles[p].state == Default)
      && |Where(g.value.tiles, IsMine)| <= Span(mineAmount)
      && (done <==> |Where(g.value.tiles, IsMine)| == Span(mineAmount))
      && ((forall k :: coin(k)) && maxPasses >= 1 && mineAmount <= NumTiles(sizeX, sizeY) ==> done)
  {
    if mineAmount > sizeX * sizeY {
      return None, false;
    }
    var m := new Minesweeper(mineAmount, sizeX, sizeY);
    done := m.Restart(coin, maxPasses);
    g := Some(m);
  }

  /** Pressing "Play" with the corrected input check, then constructing the
      game. An accepted input always gets a game whose win target is the
      number of safe tiles once seeding has finished, and seeding finishes
      in one pass when every coin comes up. */
  method StartGame(mineAmount: int, sizeX: int, sizeY: int, coin: nat -> bool, maxPasses: nat)
    returns (check: InputCheck, g: Option<Minesweeper>, done: bool)
    ensures check == CheckedInput(mineAmount, sizeX, sizeY)
    ensures g.Some? <==> check == Accepted
    ensures g.Some? ==>
      && fresh(g.value)
      && g.value.mineAmount == mineAmount && g.value.sizeX == sizeX && g.value.sizeY == sizeY
      && g.value.Valid() && g.value.status == Playing && g.value.startTime == None
      && g.value.flagCount == 0 && g.value.correctFlagCount == 0
      && g.value.clickedCount == 0 && g.value.score == 0
      && (forall p :: p in g.value.tiles ==> g.value.tiles[p].state == Default)
      && |Where(g.value.tiles, IsMine)| <= mineAmount
      && (done <==> |Where(g.value.tiles, IsMine)| == mineAmount)
      && (done ==> |Where(g.value.tiles, IsSafe)| == sizeX * sizeY - mineAmount)
      && ((forall k :: coin(k)) && maxPasses >= 1 ==> done)
  {
    check := CheckedInput(mineAmount, sizeX, sizeY);
    if check != Accepted {
      return check, None, false;
    }
    CheckedInputExact(mineAmount, sizeX, sizeY);
    g, done := NewGame(mineAmount, sizeX, sizeY, coin, maxPasses);
    SafeCount(g.value.tiles, sizeX, sizeY);
  }

  /** Flagging a tile and unflagging it again restores the grid and both
      flag counters. */
  method FlagAndUnflag(g: Minesweeper, p: Pos, now: int)
    requires g.Valid() && g.status == Playing && p in g.tiles
    modifies g
    ensures g.Valid() && g.tiles == old(g.tiles)
    ensures g.flagCount == old(g.flagCount) && g.correctFlagCount == old(g.correctFlagCount)
    ensures g.clickedCount == old(g.clickedCount) && g.score == old(g.score)
    ensures g.status == old(g.status)
    ensures g.startTime == if old(g.startTime) == None then Some(now) else old(g.startTime)
  {
    g.OnRightClick(p, now);
    g.OnRightClick(p, now);
    ToggleTwice(old(g.tiles)[p]);
    assert g.tiles == old(g.tiles);
  }
}
