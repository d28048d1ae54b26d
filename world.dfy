/** The sparse world: chunks created on demand, looked up by chunk coordinate,
    plus the flat list of live-cell coordinates that seeds each generation. */
module Worlds {
  import opened Vectors
  import opened Chunks

  /** The chunk coordinate of a cell: both components floor-divided by the
      chunk size. Dafny's `/` with a positive divisor rounds toward negative
      infinity, as `Math.floor(x / 64)` does. */
  function ToChunkVector(v: Vector2): (c: Vector2)
    ensures c.x * ChunkSize <= v.x < c.x * ChunkSize + ChunkSize
    ensures c.y * ChunkSize <= v.y < c.y * ChunkSize + ChunkSize
  {
    Vector2(v.x / ChunkSize, v.y / ChunkSize)
  }

  /** The offset of a cell inside its chunk: `v - chunk * 64`. It is in
      range, and chunk and offset together give back the cell. */
  function Offset(v: Vector2): (r: Vector2)
    ensures InChunk(r)
    ensures ToChunkVector(v).Mul(ChunkSize).Add(r) == v
  {
    v.Subtract(ToChunkVector(v).Mul(ChunkSize))
  }

  /** Two cells of the same chunk at the same offset are the same cell. */
  lemma OffsetInjective(v: Vector2, w: Vector2)
    requires ToChunkVector(v) == ToChunkVector(w)
    ensures Offset(v) == Offset(w) <==> v == w
  {
  }

  /** The chunk coordinate as `getChunkFromBlock` computes it: real division
      by the chunk size, then floor. */
  function FloorDivVector(v: Vector2): Vector2 {
    Vector2(((v.x as real) / (ChunkSize as real)).Floor, ((v.y as real) / (ChunkSize as real)).Floor)
  }

  /** `getChunkFromBlock` and `toChunkVector` agree on every cell. */
  lemma FloorDivMatchesToChunkVector(v: Vector2)
    ensures FloorDivVector(v) == ToChunkVector(v)
  {
  }

  /** `chunks.find`: the index of the first chunk whose coordinate is `cv`,
      or -1 when there is none. */
  function FindChunkIndex(cs: seq<Chunk>, cv: Vector2): (k: int)
    ensures -1 <= k < |cs|
    ensures k >= 0 ==> cs[k].vector == cv && forall j :: 0 <= j < k ==> cs[j].vector != cv
    ensures k == -1 <==> forall j :: 0 <= j < |cs| ==> cs[j].vector != cv
  {
    if cs == [] then -1
    else if cs[0].vector.Compare(cv) then 0
    else
      var k := FindChunkIndex(cs[1..], cv);
      if k < 0 then -1 else k + 1
  }

  /** Appending a chunk does not change what an earlier lookup finds; the
      appended chunk is found only when nothing before it matched. */
  lemma {:induction false} FindChunkIndexAppend(cs: seq<Chunk>, c: Chunk, cv: Vector2)
    ensures FindChunkIndex(cs + [c], cv) ==
              if FindChunkIndex(cs, cv) >= 0 then FindChunkIndex(cs, cv)
              else if c.vector == cv then |cs| else -1
  {
    if cs != [] {
      assert (cs + [c])[1..] == cs[1..] + [c];
      FindChunkIndexAppend(cs[1..], c, cv);
    }
  }

  /** The list `filter(v => !v.compare(vector))`: every entry equal to `v`
      removed, the others kept in order. */
  function RemoveAll(s: seq<Vector2>, v: Vector2): (r: seq<Vector2>)
    ensures v !in r
    ensures forall w :: w != v ==> (w in r <==> w in s)
    ensures |r| <= |s|
  {
    if s == [] then []
    else if s[0].Compare(v) then RemoveAll(s[1..], v)
    else [s[0]] + RemoveAll(s[1..], v)
  }

  /** The filter works entry by entry: filtering a concatenation filters
      each part, so the kept entries stay in their original order. */
  lemma {:induction false} RemoveAllConcat(s: seq<Vector2>, t: seq<Vector2>, v: Vector2)
    ensures RemoveAll(s + t, v) == RemoveAll(s, v) + RemoveAll(t, v)
  {
    if s != [] {
      assert (s + t)[1..] == s[1..] + t;
      RemoveAllConcat(s[1..], t, v);
    } else {
      assert s + t == t;
    }
  }

  /** On a single entry the filter drops it iff it equals `v`. */
  lemma RemoveAllEntry(x: Vector2, v: Vector2)
    ensures RemoveAll([x], v) == if x == v then [] else [x]
  {
  }

  /** Removing every copy of `v` removes exactly those copies. */
  lemma {:induction false} RemoveAllMultiset(s: seq<Vector2>, v: Vector2)
    ensures multiset(RemoveAll(s, v)) == multiset(s)[v := 0]
  {
    if s != [] {
      RemoveAllMultiset(s[1..], v);
      assert s == [s[0]] + s[1..];
    }
  }

  /** Filtering out a value that is absent leaves the list as it was. */
  lemma {:induction false} RemoveAllAbsent(s: seq<Vector2>, v: Vector2)
    requires v !in s
    ensures RemoveAll(s, v) == s
  {
    if s != [] {
      RemoveAllAbsent(s[1..], v);
    }
  }

  /** The `blocksVector` after `setBlock(v, on)`: `v` appended when set live
      (unconditionally), every copy of `v` filtered out when set dead. */
  function UpdatedBlocks(bv: seq<Vector2>, v: Vector2, on: bool): (r: seq<Vector2>)
    ensures v in r <==> on
    ensures forall w :: w != v ==> (w in r <==> w in bv)
  {
    if on then bv + [v] else RemoveAll(bv, v)
  }

  /** Setting a cell live twice lists it twice more: the append is not
      idempotent. */
  lemma SetLiveTwiceDuplicates(bv: seq<Vector2>, v: Vector2)
    ensures multiset(UpdatedBlocks(UpdatedBlocks(bv, v, true), v, true))[v] == multiset(bv)[v] + 2
  {
  }

  /** Filtering keeps a duplicate-free list duplicate-free. */
  lemma {:induction false} RemoveAllNoDups(s: seq<Vector2>, v: Vector2)
    requires NoDups(s)
    ensures NoDups(RemoveAll(s, v))
  {
    if s != [] {
      assert NoDups(s[1..]) by {
        forall i, j | 0 <= i < |s| - 1 && 0 <= j < |s| - 1 && i != j
          ensures s[1..][i] != s[1..][j]
        {
          assert s[1..][i] == s[i + 1] && s[1..][j] == s[j + 1];
        }
      }
      RemoveAllNoDups(s[1..], v);
      var rest := RemoveAll(s[1..], v);
      if !s[0].Compare(v) {
        assert s[0] !in s[1..] by {
          forall k | 0 <= k < |s| - 1 ensures s[1..][k] != s[0] {
            assert s[1..][k] == s[k + 1];
          }
        }
        assert s[0] !in rest;
        var r := [s[0]] + rest;
        forall i, j | 0 <= i < |r| && 0 <= j < |r| && i != j ensures r[i] != r[j] {
          if i == 0 {
            assert r[j] == rest[j - 1];
          } else if j == 0 {
            assert r[i] == rest[i - 1];
          } else {
            assert r[i] == rest[i - 1] && r[j] == rest[j - 1];
          }
        }
      }
    }
  }

  /** The chunks are well formed, their coordinates are pairwise distinct,
      and no two of them share a cell array. */
  ghost predicate WellFormedChunks(cs: seq<Chunk>) {
    && (forall c :: c in cs ==> c.Valid())
    && (forall i, j :: 0 <= i < |cs| && 0 <= j < |cs| && i != j ==> cs[i].vector != cs[j].vector)
    && (forall i, j :: 0 <= i < |cs| && 0 <= j < |cs| && i != j ==> cs[i].data != cs[j].data)
  }

  class World {
    var chunks: seq<Chunk>
    var blocksVector: seq<Vector2>

    /** The cell arrays of all chunks: everything a write to the grid may touch. */
    ghost function Arrays(): set<array2<bool>>
      reads this`chunks
    {
      set c | c in chunks :: c.data
    }

    ghost predicate ChunksValid()
      reads this`chunks
    {
      WellFormedChunks(chunks)
    }

    /** The chunks are well formed and `blocksVector` lists exactly the live
        cells (possibly some of them more than once). */
    ghost predicate Valid()
      reads this, Arrays()
    {
      ChunksValid() && forall v :: GetBlock(v) <==> v in blocksVector
    }

    constructor ()
      ensures Valid() && chunks == [] && blocksVector == []
    {
      chunks := [];
      blocksVector := [];
    }

    /** The chunk with coordinate `cv`, or null when none was created. */
    function GetChunk(cv: Vector2): (c: Chunk?)
      reads this`chunks
      ensures c != null ==> c in chunks && c.vector == cv
      ensures c == null <==> forall d :: d in chunks ==> d.vector != cv
    {
      var k := FindChunkIndex(chunks, cv);
      if k < 0 then null else chunks[k]
    }

    /** The chunk holding cell `v`, found through real division and floor. */
    function GetChunkFromBlock(v: Vector2): (c: Chunk?)
      reads this`chunks
      ensures c == GetChunk(ToChunkVector(v))
    {
      FloorDivMatchesToChunkVector(v);
      GetChunk(FloorDivVector(v))
    }

    /** The state of cell `v`; a cell of a chunk never created is dead. */
    function GetBlock(v: Vector2): (on: bool)
      requires ChunksValid()
      reads this`chunks, Arrays()
      ensures GetChunk(ToChunkVector(v)) == null ==> !on
    {
      var c := GetChunk(ToChunkVector(v));
      c != null && c.GetBlock(Offset(v))
    }

    /** Registers a chunk. Its coordinate and its cell array must be new,
        as every caller guarantees; the cells it covers take the chunk's
        states and no other cell changes. */
    method AddChunk(chunk: Chunk)
      requires ChunksValid() && chunk.Valid()
      requires GetChunk(chunk.vector) == null && chunk.data !in Arrays()
      modifies this`chunks
      ensures ChunksValid()
      ensures chunks == old(chunks) + [chunk]
      ensures forall v :: GetBlock(v) ==
                if ToChunkVector(v) == chunk.vector then chunk.GetBlock(Offset(v)) else old(GetBlock(v))
    {
      chunks := chunks + [chunk];
      forall v
        ensures GetBlock(v) ==
                if ToChunkVector(v) == chunk.vector then chunk.GetBlock(Offset(v)) else old(GetBlock(v))
      {
        FindChunkIndexAppend(old(chunks), chunk, ToChunkVector(v));
      }
    }

    /** The grid half of `setBlock`: finds or creates the chunk of `v` and
        writes the cell; every other cell keeps its state. */
    method WriteCell(v: Vector2, on: bool) returns (chunk: Chunk)
      requires ChunksValid()
      modifies this`chunks, Arrays()
      ensures ChunksValid()
      ensures GetBlock(v) == on
      ensures forall w :: w != v ==> GetBlock(w) == old(GetBlock(w))
      ensures chunk in chunks && chunk.vector == ToChunkVector(v)
      ensures old(GetChunk(ToChunkVector(v))) != null ==> chunks == old(chunks)
      ensures old(GetChunk(ToChunkVector(v))) == null ==> chunks == old(chunks) + [chunk] && fresh(chunk.data)
    {
      var chunkVector := ToChunkVector(v);
      var relativeVector := v.Subtract(chunkVector.Mul(ChunkSize));
      var found := GetChunk(chunkVector);
      if found != null {
        chunk := found;
        chunk.SetBlock(relativeVector, on);
        forall w | w != v ensures GetBlock(w) == old(GetBlock(w)) {
          var cw := ToChunkVector(w);
          if cw == chunkVector {
            OffsetInjective(v, w);
          } else {
            var c := GetChunk(cw);
            if c != null {
              var i := FindChunkIndex(chunks, cw);
              var k := FindChunkIndex(chunks, chunkVector);
              assert chunks[i] == c && chunks[k] == chunk;
              assert c.data != chunk.data;
            }
          }
        }
      } else {
        chunk := new Chunk(chunkVector);
        chunk.SetBlock(relativeVector, on);
        AddChunk(chunk);
        forall w | w != v && ToChunkVector(w) == chunkVector ensures !chunk.GetBlock(Offset(w)) {
          OffsetInjective(v, w);
        }
      }
    }

    /** Sets cell `v` live or dead, creating its chunk when there is none, and
        updates `blocksVector` accordingly. Returns the chunk written. */
    method SetBlock(v: Vector2, on: bool) returns (chunk: Chunk)
      requires Valid()
      modifies this, Arrays()
      ensures Valid()
      ensures blocksVector == UpdatedBlocks(old(blocksVector), v, on)
      ensures GetBlock(v) == on
      ensures forall w :: w != v ==> GetBlock(w) == old(GetBlock(w))
      ensures chunk in chunks && chunk.vector == ToChunkVector(v)
      ensures old(GetChunk(ToChunkVector(v))) != null ==> chunks == old(chunks)
      ensures old(GetChunk(ToChunkVector(v))) == null ==> chunks == old(chunks) + [chunk] && fresh(chunk.data)
    {
      chunk := WriteCell(v, on);
      if on {
        blocksVector := blocksVector + [v];
      } else {
        blocksVector := RemoveAll(blocksVector, v);
      }
      forall w ensures GetBlock(w) <==> w in blocksVector {
        if w != v {
          assert old(GetBlock(w)) <==> w in old(blocksVector);
        }
      }
    }
  }
}
