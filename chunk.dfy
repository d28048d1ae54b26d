/** A chunk: a fixed square tile of the unbounded grid, holding one boolean
    per cell, indexed by the cell's offset inside the tile. */
module Chunks {
  import opened Vectors

  /** Side length of a chunk, in cells. */
  const ChunkSize: int := 64

  /** `r` is a valid offset inside a chunk. */
  predicate InChunk(r: Vector2) {
    0 <= r.x < ChunkSize && 0 <= r.y < ChunkSize
  }

  class Chunk {
    /** The chunk coordinate of this tile; fixed when the chunk is created. */
    const vector: Vector2
    /** Cell states, row-major: `data[y, x]` is the cell at offset (x, y). */
    const data: array2<bool>

    ghost predicate Valid() {
      data.Length0 == ChunkSize && data.Length1 == ChunkSize
    }

    /** No cell of the tile is live. */
    ghost predicate IsEmpty()
      reads data
    {
      forall y, x :: 0 <= y < data.Length0 && 0 <= x < data.Length1 ==> !data[y, x]
    }

    /** A new chunk at chunk coordinate `v`, every cell dead. */
    constructor (v: Vector2)
      ensures Valid() && vector == v && fresh(data)
      ensures IsEmpty()
    {
      var cells := new bool[ChunkSize, ChunkSize];
      var y := 0;
      while y < ChunkSize
        invariant 0 <= y <= ChunkSize
        invariant forall i, j :: 0 <= i < y && 0 <= j < ChunkSize ==> !cells[i, j]
      {
        var x := 0;
        while x < ChunkSize
          invariant 0 <= x <= ChunkSize
          invariant forall i, j :: 0 <= i < y && 0 <= j < ChunkSize ==> !cells[i, j]
          invariant forall j :: 0 <= j < x ==> !cells[y, j]
        {
          cells[y, x] := false;
          x := x + 1;
        }
        y := y + 1;
      }
      vector := v;
      data := cells;
    }

    /** The cell at offset `r`. */
    function GetBlock(r: Vector2): bool
      requires Valid() && InChunk(r)
      reads data
    {
      data[r.y, r.x]
    }

    /** Every read of a chunk with no live cell gives dead. */
    lemma EmptyReadsDead(r: Vector2)
      requires Valid() && InChunk(r) && IsEmpty()
      ensures !GetBlock(r)
    {
    }

    /** Writes the cell at offset `r`; every other cell of the tile keeps its state. */
    method SetBlock(r: Vector2, on: bool)
      requires Valid() && InChunk(r)
      modifies data
      ensures GetBlock(r) == on
      ensures forall q :: InChunk(q) && q != r ==> GetBlock(q) == old(GetBlock(q))
    {
      data[r.y, r.x] := on;
    }
  }
}
