/** The invariants of the breadth-first reveal in `clearSurroundingTiles`,
    stated over board values, with one lemma per step of the loop. */
module FloodFill {
  import opened Grid

  /** The tiles a fill expands from: the start tile and the zero tiles it reveals. */
  ghost predicate FillSource(b0: Board, start: Pos, revealed: seq<Pos>, c: Pos) {
    c in b0 && b0[c].mines == 0 && (c == start || c in revealed)
  }

  /** The `i`-th revealed tile neighbours the start tile or a zero tile
      revealed before it: the tile the fill was expanding when it revealed it. */
  ghost predicate SourcedAt(b0: Board, sizeX: int, sizeY: int, start: Pos, revealed: seq<Pos>, i: int)
    requires 0 <= i < |revealed|
  {
    exists c :: FillSource(b0, start, revealed[..i], c) && revealed[i] in Neighbors(sizeX, sizeY, c)
  }

  /** Every revealed tile was reached from the start through zero tiles
      revealed earlier, one neighbour step at a time. */
  ghost predicate Sound(b0: Board, sizeX: int, sizeY: int, start: Pos, revealed: seq<Pos>) {
    forall i {:trigger SourcedAt(b0, sizeX, sizeY, start, revealed, i)} ::
      0 <= i < |revealed| ==> SourcedAt(b0, sizeX, sizeY, start, revealed, i)
  }

  /** `revealed` lists, without repetition, exactly the tiles turned from
      DEFAULT to CLICKED between `b0` and `b`, and none of them is a mine. */
  ghost predicate Tracked(b0: Board, b: Board, revealed: seq<Pos>) {
    && Evolves(b0, b)
    && NoRevealedMine(b)
    && Distinct(revealed)
    && (forall q :: q in revealed <==> NewlyClicked(b0, b, q))
  }

  /** The invariant of the outer loop: every queued tile is a source, every
      processed tile has no DEFAULT neighbour left, and every source is
      processed or still queued. */
  ghost predicate FillInv(b0: Board, b: Board, sizeX: int, sizeY: int, start: Pos,
                          queue: seq<Pos>, processed: set<Pos>, revealed: seq<Pos>)
  {
    && Tracked(b0, b, revealed)
    && Sound(b0, sizeX, sizeY, start, revealed)
    && (forall q :: q in queue ==> FillSource(b0, start, revealed, q))
    && (forall c :: c in processed ==> Closed(b, sizeX, sizeY, c))
    && (start in processed || start in queue)
    && (forall q :: q in revealed && b0[q].mines == 0 ==> q in processed || q in queue)
  }

  /** The invariant of the inner loop, while the neighbours of the dequeued
      tile `c` are cleared one by one; `k` of them are done. */
  ghost predicate InnerInv(b0: Board, b: Board, sizeX: int, sizeY: int, start: Pos,
                           c: Pos, queue: seq<Pos>, processed: set<Pos>,
                           revealed: seq<Pos>, k: int)
  {
    InnerCore(b0, b, sizeX, sizeY, start, c, queue, processed, revealed) &&
    PrefixCleared(b, Neighbors(sizeX, sizeY, c), k)
  }

  /** The part of the inner invariant that does not depend on `k`: the outer
      invariant, with the dequeued tile `c` counted as still pending. */
  ghost predicate InnerCore(b0: Board, b: Board, sizeX: int, sizeY: int, start: Pos,
                            c: Pos, queue: seq<Pos>, processed: set<Pos>, revealed: seq<Pos>)
  {
    && Tracked(b0, b, revealed)
    && Sound(b0, sizeX, sizeY, start, revealed)
    && FillSource(b0, start, revealed, c)
    && (forall q :: q in queue ==> FillSource(b0, start, revealed, q))
    && (forall c' :: c' in processed ==> Closed(b, sizeX, sizeY, c'))
    && (start in processed || start in queue || start == c)
    && (forall q :: q in revealed && b0[q].mines == 0 ==> q in processed || q in queue || q == c)
  }

  /** The first `k` tiles of `ns` have left the DEFAULT state. */
  ghost predicate PrefixCleared(b: Board, ns: seq<Pos>, k: int) {
    0 <= k <= |ns| && forall j :: 0 <= j < k ==> ns[j] in b && b[ns[j]].state != Default
  }

  /** The fill has stopped: the start tile and every zero tile in `revealed`
      have no DEFAULT neighbour left. */
  ghost predicate FillClosed(b0: Board, b: Board, sizeX: int, sizeY: int, start: Pos,
                             revealed: seq<Pos>)
  {
    && Closed(b, sizeX, sizeY, start)
    && forall q :: q in revealed && q in b0 && b0[q].mines == 0 ==> Closed(b, sizeX, sizeY, q)
  }

  /** What `clearTile(q)` does to the board and the queue. */
  ghost predicate ClearStep(b: Board, q: Pos, queue: seq<Pos>, b': Board, queue': seq<Pos>) {
    q in b &&
    if b[q].state != Default then b' == b && queue' == queue
    else b' == b[q := b[q].(state := Clicked)] &&
         queue' == (if b[q].mines == 0 then queue + [q] else queue)
  }

  lemma FillStart(b0: Board, sizeX: int, sizeY: int, start: Pos)
    requires NoRevealedMine(b0) && start in b0 && b0[start].mines == 0
    ensures FillInv(b0, b0, sizeX, sizeY, start, [start], {}, [])
  {
  }

  /** Dequeuing the head of the queue starts the inner loop. */
  lemma FillPop(b0: Board, b: Board, sizeX: int, sizeY: int, start: Pos,
                queue: seq<Pos>, processed: set<Pos>, revealed: seq<Pos>)
    requires FillInv(b0, b, sizeX, sizeY, start, queue, processed, revealed) && queue != []
    ensures InnerInv(b0, b, sizeX, sizeY, start, queue[0], queue[1..], processed, revealed, 0)
  {
    forall q | q in revealed && b0[q].mines == 0
      ensures q in processed || q in queue[1..] || q == queue[0]
    {
      if q !in processed && q != queue[0] {
        assert q in queue;
        var i :| 0 <= i < |queue| && queue[i] == q;
        assert queue[1..][i - 1] == q;
      }
    }
    if start !in processed && start != queue[0] {
      var i :| 0 <= i < |queue| && queue[i] == start;
      assert queue[1..][i - 1] == start;
    }
  }

  /** Clearing one neighbour of a zero tile keeps the inner invariant. */
  lemma FillClear(b0: Board, b: Board, sizeX: int, sizeY: int, start: Pos,
                  c: Pos, queue: seq<Pos>, processed: set<Pos>, revealed: seq<Pos>,
                  k: int, b': Board, queue': seq<Pos>)
    requires InnerInv(b0, b, sizeX, sizeY, start, c, queue, processed, revealed, k)
    requires k < |Neighbors(sizeX, sizeY, c)|
    requires AdjacencyOk(b, sizeX, sizeY)
    requires ClearStep(b, Neighbors(sizeX, sizeY, c)[k], queue, b', queue')
    ensures var q := Neighbors(sizeX, sizeY, c)[k];
      InnerInv(b0, b', sizeX, sizeY, start, c, queue', processed,
               if b[q].state == Default then revealed + [q] else revealed, k + 1)
  {
    var q := Neighbors(sizeX, sizeY, c)[k];
    if b[q].state == Default {
      FillReveal(b0, b, sizeX, sizeY, start, c, queue, processed, revealed, k, b', queue');
    } else {
      FillSkip(b0, b, sizeX, sizeY, start, c, queue, processed, revealed, k);
    }
  }

  /** The case of `FillClear` where the neighbour had already left DEFAULT. */
  lemma FillSkip(b0: Board, b: Board, sizeX: int, sizeY: int, start: Pos,
                 c: Pos, queue: seq<Pos>, processed: set<Pos>, revealed: seq<Pos>, k: int)
    requires InnerInv(b0, b, sizeX, sizeY, start, c, queue, processed, revealed, k)
    requires k < |Neighbors(sizeX, sizeY, c)|
    requires Neighbors(sizeX, sizeY, c)[k] in b
    requires b[Neighbors(sizeX, sizeY, c)[k]].state != Default
    ensures InnerInv(b0, b, sizeX, sizeY, start, c, queue, processed, revealed, k + 1)
  {
    assert InnerCore(b0, b, sizeX, sizeY, start, c, queue, processed, revealed);
    assert PrefixCleared(b, Neighbors(sizeX, sizeY, c), k + 1);
  }

  /** The case of `FillClear` where the neighbour was still DEFAULT. */
  lemma FillReveal(b0: Board, b: Board, sizeX: int, sizeY: int, start: Pos,
                   c: Pos, queue: seq<Pos>, processed: set<Pos>, revealed: seq<Pos>,
                   k: int, b': Board, queue': seq<Pos>)
    requires InnerInv(b0, b, sizeX, sizeY, start, c, queue, processed, revealed, k)
    requires k < |Neighbors(sizeX, sizeY, c)|
    requires AdjacencyOk(b, sizeX, sizeY)
    requires ClearStep(b, Neighbors(sizeX, sizeY, c)[k], queue, b', queue')
    requires b[Neighbors(sizeX, sizeY, c)[k]].state == Default
    ensures var q := Neighbors(sizeX, sizeY, c)[k];
      InnerInv(b0, b', sizeX, sizeY, start, c, queue', processed, revealed + [q], k + 1)
  {
    var ns := Neighbors(sizeX, sizeY, c);
    var q := ns[k];
    assert SameLayout(b0, b);
    assert c in b && b[c].mines == 0;
    ZeroTileNeighborSafe(b, sizeX, sizeY, c, q);
    TrackedStep(b0, b, revealed, q, b');
    SoundStep(b0, sizeX, sizeY, start, c, revealed, q);
    QueueStep(b0, b, start, queue, revealed, q, queue');
    ClosedStep(b, sizeX, sizeY, processed, q, b');
    CoverStep(b0, b, start, c, queue, processed, revealed, q, queue');
    PrefixStep(b, ns, k, b');
  }

  /** Revealing one more safe DEFAULT tile extends the record of revealed tiles. */
  lemma TrackedStep(b0: Board, b: Board, revealed: seq<Pos>, q: Pos, b': Board)
    requires Tracked(b0, b, revealed)
    requires q in b && b[q].state == Default && !b[q].isMine
    requires b' == b[q := b[q].(state := Clicked)]
    ensures Tracked(b0, b', revealed + [q])
  {
    assert SameLayout(b0, b);
    assert q in b0 && q !in revealed;
    forall p | p in b0
      ensures b'[p].isMine == b0[p].isMine && b'[p].mines == b0[p].mines
    {
    }
    assert b'.Keys == b0.Keys;
    forall p
      ensures p in revealed + [q] <==> NewlyClicked(b0, b', p)
    {
      if p != q {
        assert (p in revealed + [q]) == (p in revealed);
      }
    }
  }

  /** A neighbour of a source tile may join the revealed tiles. */
  lemma SoundStep(b0: Board, sizeX: int, sizeY: int, start: Pos, c: Pos,
                  revealed: seq<Pos>, q: Pos)
    requires Sound(b0, sizeX, sizeY, start, revealed)
    requires FillSource(b0, start, revealed, c) && q in Neighbors(sizeX, sizeY, c)
    ensures Sound(b0, sizeX, sizeY, start, revealed + [q])
  {
    var r := revealed + [q];
    forall i | 0 <= i < |r|
      ensures SourcedAt(b0, sizeX, sizeY, start, r, i)
    {
      if i == |revealed| {
        assert r[..i] == revealed;
        assert FillSource(b0, start, r[..i], c) && r[i] in Neighbors(sizeX, sizeY, c);
      } else {
        assert SourcedAt(b0, sizeX, sizeY, start, revealed, i);
        assert r[..i] == revealed[..i] && r[i] == revealed[i];
      }
    }
  }

  lemma QueueStep(b0: Board, b: Board, start: Pos, queue: seq<Pos>, revealed: seq<Pos>,
                  q: Pos, queue': seq<Pos>)
    requires forall p :: p in queue ==> FillSource(b0, start, revealed, p)
    requires SameLayout(b0, b) && q in b
    requires queue' == (if b[q].mines == 0 then queue + [q] else queue)
    ensures forall p :: p in queue' ==> FillSource(b0, start, revealed + [q], p)
  {
    forall p | p in queue'
      ensures FillSource(b0, start, revealed + [q], p)
    {
      if p != q {
        assert p in queue;
      }
    }
  }

  /** Revealing a tile cannot reopen a closed tile. */
  lemma ClosedKept(b: Board, sizeX: int, sizeY: int, c: Pos, p: Pos)
    requires Closed(b, sizeX, sizeY, c) && p in b
    ensures Closed(b[p := b[p].(state := Clicked)], sizeX, sizeY, c)
  {
  }

  /** Clicking a tile keeps every processed tile closed. */
  lemma ClosedStep(b: Board, sizeX: int, sizeY: int, processed: set<Pos>, q: Pos, b': Board)
    requires forall c :: c in processed ==> Closed(b, sizeX, sizeY, c)
    requires q in b && b' == b[q := b[q].(state := Clicked)]
    ensures forall c :: c in processed ==> Closed(b', sizeX, sizeY, c)
  {
    forall c | c in processed
      ensures Closed(b', sizeX, sizeY, c)
    {
      ClosedKept(b, sizeX, sizeY, c, q);
    }
  }

  lemma CoverStep(b0: Board, b: Board, start: Pos, c: Pos, queue: seq<Pos>,
                  processed: set<Pos>, revealed: seq<Pos>, q: Pos, queue': seq<Pos>)
    requires forall p :: p in revealed ==> p in b0
    requires forall p :: p in revealed && b0[p].mines == 0 ==> p in processed || p in queue || p == c
    requires SameLayout(b0, b) && q in b
    requires queue' == (if b[q].mines == 0 then queue + [q] else queue)
    ensures forall p :: p in revealed + [q] && b0[p].mines == 0 ==>
      p in processed || p in queue' || p == c
  {
    forall p | p in revealed + [q] && b0[p].mines == 0
      ensures p in processed || p in queue' || p == c
    {
      if p != q {
        assert p in revealed;
      }
    }
  }

  lemma PrefixStep(b: Board, ns: seq<Pos>, k: int, b': Board)
    requires PrefixCleared(b, ns, k) && k < |ns| && ns[k] in b
    requires b' == b[ns[k] := b[ns[k]].(state := Clicked)]
    ensures PrefixCleared(b', ns, k + 1)
  {
  }

  /** Once every neighbour of `c` is cleared, `c` counts as processed. */
  lemma FillProcessed(b0: Board, b: Board, sizeX: int, sizeY: int, start: Pos,
                      c: Pos, queue: seq<Pos>, processed: set<Pos>, revealed: seq<Pos>)
    requires InnerInv(b0, b, sizeX, sizeY, start, c, queue, processed, revealed,
                      |Neighbors(sizeX, sizeY, c)|)
    ensures FillInv(b0, b, sizeX, sizeY, start, queue, processed + {c}, revealed)
  {
    var ns := Neighbors(sizeX, sizeY, c);
    assert Closed(b, sizeX, sizeY, c) by {
      forall q | q in ns
        ensures q in b && b[q].state != Default
      {
        var j :| 0 <= j < |ns| && ns[j] == q;
      }
    }
  }

  /** When the queue has drained, the start tile and every zero tile the
      fill revealed have no DEFAULT neighbour left. */
  lemma FillDone(b0: Board, b: Board, sizeX: int, sizeY: int, start: Pos,
                 processed: set<Pos>, revealed: seq<Pos>)
    requires FillInv(b0, b, sizeX, sizeY, start, [], processed, revealed)
    ensures FillClosed(b0, b, sizeX, sizeY, start, revealed)
  {
  }

  /** One row of six tiles with the only mine at (0,2): the counts are
      0, 1, 0, 1, 0, 0 (the mine's own count is 0). */
  function StripBoard(): (b: Board)
    ensures forall p :: p in b <==> InBounds(1, 6, p)
  {
    map[Pos(0, 0) := Tile(false, 0, Default), Pos(0, 1) := Tile(false, 1, Default),
        Pos(0, 2) := Tile(true, 0, Default), Pos(0, 3) := Tile(false, 1, Default),
        Pos(0, 4) := Tile(false, 0, Default), Pos(0, 5) := Tile(false, 0, Default)]
  }

  /** A fill from (0,0) stops at the numbered tile (0,1): a record that goes
      on past the mine to the zero tiles (0,4) and (0,5) is not `Sound`,
      because (0,4) neighbours neither the start nor a zero tile revealed
      before it. */
  lemma DetachedRevealNotSound()
    ensures !SourcedAt(StripBoard(), 1, 6, Pos(0, 0), [Pos(0, 1), Pos(0, 4), Pos(0, 5), Pos(0, 3)], 1)
    ensures !Sound(StripBoard(), 1, 6, Pos(0, 0), [Pos(0, 1), Pos(0, 4), Pos(0, 5), Pos(0, 3)])
    ensures Sound(StripBoard(), 1, 6, Pos(0, 0), [Pos(0, 1)])
  {
    var b0, start := StripBoard(), Pos(0, 0);
    var rv := [Pos(0, 1), Pos(0, 4), Pos(0, 5), Pos(0, 3)];
    assert rv[..1] == [Pos(0, 1)];
    forall c | FillSource(b0, start, rv[..1], c)
      ensures rv[1] !in Neighbors(1, 6, c)
    {
      assert c == start;
    }
    assert [Pos(0, 1)][..0] == [];
    assert FillSource(b0, start, [Pos(0, 1)][..0], start);
  }
}
