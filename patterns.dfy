/** Two classic patterns under the game's default rules (survive on 2 or 3
    neighbours, be born on 3): the block is a still life and the blinker
    oscillates with period two. */
module Patterns {
  import opened Vectors
  import opened Life

  const DefaultLive: seq<int> := [2, 3]
  const DefaultDeath: seq<int> := [3]

  /** `alive` is the 2x2 block with corners (0, 0) and (1, 1). */
  ghost predicate IsBlock(alive: set<Vector2>) {
    forall c :: c in alive <==> 0 <= c.x <= 1 && 0 <= c.y <= 1
  }

  /** `alive` is the horizontal blinker (-1, 0), (0, 0), (1, 0). */
  ghost predicate IsBlinkerRow(alive: set<Vector2>) {
    forall c :: c in alive <==> c.y == 0 && -1 <= c.x <= 1
  }

  /** `alive` is the vertical blinker (0, -1), (0, 0), (0, 1). */
  ghost predicate IsBlinkerColumn(alive: set<Vector2>) {
    forall c :: c in alive <==> c.x == 0 && -1 <= c.y <= 1
  }

  /** The neighbour count written out over the eight offsets. */
  lemma NeighbourCountUnfolded(alive: set<Vector2>, v: Vector2)
    ensures NeighbourCount(alive, v) ==
              (if Vector2(v.x - 1, v.y - 1) in alive then 1 else 0) +
              (if Vector2(v.x, v.y - 1) in alive then 1 else 0) +
              (if Vector2(v.x + 1, v.y - 1) in alive then 1 else 0) +
              (if Vector2(v.x - 1, v.y) in alive then 1 else 0) +
              (if Vector2(v.x + 1, v.y) in alive then 1 else 0) +
              (if Vector2(v.x - 1, v.y + 1) in alive then 1 else 0) +
              (if Vector2(v.x, v.y + 1) in alive then 1 else 0) +
              (if Vector2(v.x + 1, v.y + 1) in alive then 1 else 0)
  {
    var rv := RoundVectors;
    assert CountIn(alive, v, rv[..0]) == 0;
    assert rv[..1][..0] == rv[..0];
    assert CountIn(alive, v, rv[..1]) == CountIn(alive, v, rv[..0]) + (if v.Add(rv[0]) in alive then 1 else 0);
    assert rv[..2][..1] == rv[..1];
    assert CountIn(alive, v, rv[..2]) == CountIn(alive, v, rv[..1]) + (if v.Add(rv[1]) in alive then 1 else 0);
    assert rv[..3][..2] == rv[..2];
    assert CountIn(alive, v, rv[..3]) == CountIn(alive, v, rv[..2]) + (if v.Add(rv[2]) in alive then 1 else 0);
    assert rv[..4][..3] == rv[..3];
    assert CountIn(alive, v, rv[..4]) == CountIn(alive, v, rv[..3]) + (if v.Add(rv[3]) in alive then 1 else 0);
    assert rv[..5][..4] == rv[..4];
    assert CountIn(alive, v, rv[..5]) == CountIn(alive, v, rv[..4]) + (if v.Add(rv[4]) in alive then 1 else 0);
    assert rv[..6][..5] == rv[..5];
    assert CountIn(alive, v, rv[..6]) == CountIn(alive, v, rv[..5]) + (if v.Add(rv[5]) in alive then 1 else 0);
    assert rv[..7][..6] == rv[..6];
    assert CountIn(alive, v, rv[..7]) == CountIn(alive, v, rv[..6]) + (if v.Add(rv[6]) in alive then 1 else 0);
    assert rv[..8][..7] == rv[..7];
    assert CountIn(alive, v, rv[..8]) == CountIn(alive, v, rv[..7]) + (if v.Add(rv[7]) in alive then 1 else 0);
    assert rv[..8] == rv;
  }

  /** A cell is in the region of `alive` when `alive` holds a cell at most one
      step away from it. */
  lemma InRegion(alive: set<Vector2>, c: Vector2, v: Vector2)
    requires c in alive
    requires -1 <= v.x - c.x <= 1 && -1 <= v.y - c.y <= 1
    ensures v in Region(alive)
  {
    var r := Vector2(v.x - c.x, v.y - c.y);
    if r != Origin {
      RoundVectorsAreMooreNeighbourhood(r);
    }
    assert r in BlockOffsets;
    assert v == c.Add(r);
  }

  /** Every cell of the region lies in the bounding box of `alive` grown by one. */
  lemma RegionInBox(alive: set<Vector2>, v: Vector2, lo: Vector2, hi: Vector2)
    requires forall c :: c in alive ==> lo.x <= c.x <= hi.x && lo.y <= c.y <= hi.y
    requires v in Region(alive)
    ensures lo.x - 1 <= v.x <= hi.x + 1 && lo.y - 1 <= v.y <= hi.y + 1
  {
  }

  /** Around the block, the rule keeps exactly the block. */
  lemma BlockCells(alive: set<Vector2>, v: Vector2)
    requires IsBlock(alive)
    requires -1 <= v.x <= 2 && -1 <= v.y <= 2
    ensures NextState(v in alive, NeighbourCount(alive, v), DefaultLive, DefaultDeath) <==> v in alive
  {
    NeighbourCountUnfolded(alive, v);
  }

  /** Around the row, the rule gives exactly the column. */
  lemma BlinkerRowCells(alive: set<Vector2>, v: Vector2)
    requires IsBlinkerRow(alive)
    requires -2 <= v.x <= 2 && -1 <= v.y <= 1
    ensures NextState(v in alive, NeighbourCount(alive, v), DefaultLive, DefaultDeath) <==>
              v.x == 0 && -1 <= v.y <= 1
  {
    NeighbourCountUnfolded(alive, v);
  }

  /** Around the column, the rule gives exactly the row. */
  lemma BlinkerColumnCells(alive: set<Vector2>, v: Vector2)
    requires IsBlinkerColumn(alive)
    requires -1 <= v.x <= 1 && -2 <= v.y <= 2
    ensures NextState(v in alive, NeighbourCount(alive, v), DefaultLive, DefaultDeath) <==>
              v.y == 0 && -1 <= v.x <= 1
  {
    NeighbourCountUnfolded(alive, v);
  }

  /** Under the default rules the block is a still life. */
  lemma BlockIsStillLife(alive: set<Vector2>)
    requires IsBlock(alive)
    ensures NextGeneration(alive, DefaultLive, DefaultDeath) == alive
  {
    var next := NextGeneration(alive, DefaultLive, DefaultDeath);
    forall v | v in alive ensures v in next {
      InRegion(alive, v, v);
      BlockCells(alive, v);
    }
    forall v | v in next ensures v in alive {
      RegionInBox(alive, v, Vector2(0, 0), Vector2(1, 1));
      BlockCells(alive, v);
    }
  }

  /** The horizontal blinker turns into the vertical one. */
  lemma BlinkerRowBecomesColumn(alive: set<Vector2>)
    requires IsBlinkerRow(alive)
    ensures IsBlinkerColumn(NextGeneration(alive, DefaultLive, DefaultDeath))
  {
    var next := NextGeneration(alive, DefaultLive, DefaultDeath);
    forall c ensures c in next <==> c.x == 0 && -1 <= c.y <= 1 {
      if c.x == 0 && -1 <= c.y <= 1 {
        InRegion(alive, Vector2(0, 0), c);
        BlinkerRowCells(alive, c);
      }
      if c in next {
        RegionInBox(alive, c, Vector2(-1, 0), Vector2(1, 0));
        BlinkerRowCells(alive, c);
      }
    }
  }

  /** The vertical blinker turns into the horizontal one. */
  lemma BlinkerColumnBecomesRow(alive: set<Vector2>)
    requires IsBlinkerColumn(alive)
    ensures IsBlinkerRow(NextGeneration(alive, DefaultLive, DefaultDeath))
  {
    var next := NextGeneration(alive, DefaultLive, DefaultDeath);
    forall c ensures c in next <==> c.y == 0 && -1 <= c.x <= 1 {
      if c.y == 0 && -1 <= c.x <= 1 {
        InRegion(alive, Vector2(0, 0), c);
        BlinkerColumnCells(alive, c);
      }
      if c in next {
        RegionInBox(alive, c, Vector2(0, -1), Vector2(0, 1));
        BlinkerColumnCells(alive, c);
      }
    }
  }

  /** Two sets that are both the horizontal blinker are equal. */
  lemma SameCells(a: set<Vector2>, b: set<Vector2>)
    requires IsBlinkerRow(a) && IsBlinkerRow(b)
    ensures a == b
  {
  }

  /** The blinker oscillates with period two. */
  lemma BlinkerHasPeriodTwo(alive: set<Vector2>)
    requires IsBlinkerRow(alive)
    ensures NextGeneration(NextGeneration(alive, DefaultLive, DefaultDeath), DefaultLive, DefaultDeath) == alive
  {
    var next := NextGeneration(alive, DefaultLive, DefaultDeath);
    BlinkerRowBecomesColumn(alive);
    BlinkerColumnBecomesRow(next);
    var back := NextGeneration(next, DefaultLive, DefaultDeath);
    assert IsBlinkerRow(back);
    SameCells(back, alive);
  }
}
