/** The simulation engine: a started/stopped flag, the tick clock, the rule
    lists, and the synchronous generation step over the world. */
module Games {
  import opened Vectors
  import opened Chunks
  import opened Dedup
  import opened Worlds
  import opened Life

  /** The chunks the game allocates before any cell is set. */
  const InitialChunkVectors: seq<Vector2> := [Vector2(0, 0), Vector2(1, 0), Vector2(1, 1), Vector2(0, 1)]

  /** Milliseconds between generations, until the user changes it. */
  const DefaultTickInterval: nat := 100

  class Game {
    const world: World
    var started: bool
    /** Clock reading (milliseconds) of the last generation. */
    var lastTick: int
    var tickInterval: nat
    /** Neighbour counts under which a live cell survives. */
    var live: seq<int>
    /** Neighbour counts under which a dead cell is born. */
    var death: seq<int>

    ghost predicate Valid()
      reads this, world, world.Arrays()
    {
      world.Valid()
    }

    /** A new, stopped game whose clock starts at `now`; the world has the
        four initial chunks and no live cell. */
    constructor (now: int)
      ensures Valid() && fresh(world)
      ensures !started && lastTick == now && tickInterval == DefaultTickInterval
      ensures live == [2, 3] && death == [3]
      ensures world.blocksVector == []
      ensures |world.chunks| == |InitialChunkVectors|
      ensures forall k :: 0 <= k < |InitialChunkVectors| ==> world.chunks[k].vector == InitialChunkVectors[k]
      ensures forall v :: !world.GetBlock(v)
      ensures forall c :: c in world.chunks ==> fresh(c.data)
    {
      var w := new World();
      for i := 0 to |InitialChunkVectors|
        invariant fresh(w) && w.Valid() && w.blocksVector == []
        invariant |w.chunks| == i
        invariant forall k :: 0 <= k < i ==> w.chunks[k].vector == InitialChunkVectors[k]
        invariant forall c :: c in w.chunks ==> fresh(c.data)
      {
        var chunk := new Chunk(InitialChunkVectors[i]);
        label BeforeAdd:
        w.AddChunk(chunk);
        forall v ensures !w.GetBlock(v) {
          assert !old@BeforeAdd(w.GetBlock(v)) by {
            assert v !in w.blocksVector;
          }
        }
      }
      world := w;
      started := false;
      lastTick := now;
      tickInterval := DefaultTickInterval;
      live := [2, 3];
      death := [3];
      new;
      forall v ensures !world.GetBlock(v) {
        assert v !in world.blocksVector;
      }
    }

    method Start()
      modifies this`started
      ensures started && IsStarted()
    {
      started := true;
    }

    method Stop()
      modifies this`started
      ensures !started && !IsStarted()
    {
      started := false;
    }

    function IsStarted(): bool
      reads this`started
    {
      started
    }

    /** A generation is due at clock reading `now`. */
    predicate Due(now: int)
      reads this`started, this`lastTick, this`tickInterval
    {
      started && now - lastTick >= tickInterval
    }

    /** A game that `isStarted` reports as stopped is never due for a
        generation, whatever the clock says. */
    lemma StoppedIsIdle(now: int)
      requires !IsStarted()
      ensures !Due(now)
    {
    }

    /** The per-frame entry point. While stopped, or before `tickInterval`
        milliseconds have passed since the last generation, it changes
        nothing; otherwise it records `now` and runs exactly one generation. */
    method Ticker(now: int)
      requires Valid()
      modifies this`lastTick, world, world.Arrays()
      ensures Valid()
      ensures !old(Due(now)) ==> lastTick == old(lastTick) && unchanged(world)
      ensures !old(Due(now)) ==> forall v :: world.GetBlock(v) == old(world.GetBlock(v))
      ensures old(Due(now)) ==> lastTick == now
      ensures old(Due(now)) ==> world.blocksVector == StepBlocks(old(world.blocksVector), live, death)
      ensures old(Due(now)) ==>
                forall v :: world.GetBlock(v) <==> v in NextGeneration(old(Elems(world.blocksVector)), live, death)
      ensures old(Due(now)) && old(NoDups(world.blocksVector)) ==> NoDups(world.blocksVector)
      ensures old(world.chunks) <= world.chunks
      ensures forall k :: |old(world.chunks)| <= k < |world.chunks| ==> fresh(world.chunks[k].data)
      ensures old(Due(now)) ==>
                forall v :: v !in Region(old(Elems(world.blocksVector))) ==> v !in old(world.blocksVector) && !world.GetBlock(v)
    {
      if started {
        var nowMS := now;
        if nowMS - lastTick >= tickInterval {
          lastTick := nowMS;
          Generation();
        }
      }
    }

    /** One synchronous generation: collect the live cells and their
        neighbours, deduplicate them, decide each candidate against the
        pre-step world, then apply all decisions through `setBlock`. */
    method Generation()
      requires Valid()
      modifies world, world.Arrays()
      ensures Valid()
      ensures world.blocksVector == StepBlocks(old(world.blocksVector), live, death)
      ensures forall v :: world.GetBlock(v) <==> v in NextGeneration(old(Elems(world.blocksVector)), live, death)
      ensures old(NoDups(world.blocksVector)) ==> NoDups(world.blocksVector)
      ensures old(world.chunks) <= world.chunks
      ensures forall k :: |old(world.chunks)| <= k < |world.chunks| ==> fresh(world.chunks[k].data)
      ensures forall v :: v !in Region(old(Elems(world.blocksVector))) ==> v !in old(world.blocksVector) && !world.GetBlock(v)
    {
      ghost var blocks := world.blocksVector;
      var toCheckVectors := CollectCandidates(world.blocksVector);
      toCheckVectors := ToUniqueVectorArray(toCheckVectors);
      var toUpdateBlocks := Decide(toCheckVectors);
      WriteUpdates(toUpdateBlocks);
      forall v ensures world.GetBlock(v) <==> v in NextGeneration(Elems(blocks), live, death) {
        StepBlocksMembers(blocks, live, death, v);
      }
      forall v | v !in Region(Elems(blocks)) ensures v !in blocks && !world.GetBlock(v) {
        FarCellsNeverBorn(Elems(blocks), live, death, v);
      }
      if NoDups(blocks) {
        StepBlocksNoDups(blocks, live, death);
      }
    }

    /** The write-back loop of a generation: `setBlock` for each decision,
        in order. */
    method WriteUpdates(toUpdateBlocks: seq<Update>)
      requires Valid()
      modifies world, world.Arrays()
      ensures Valid()
      ensures world.blocksVector == ApplyUpdates(old(world.blocksVector), toUpdateBlocks)
      ensures old(world.chunks) <= world.chunks
      ensures forall k :: |old(world.chunks)| <= k < |world.chunks| ==> fresh(world.chunks[k].data)
    {
      for i := 0 to |toUpdateBlocks|
        invariant world.Valid()
        invariant world.blocksVector == ApplyUpdates(old(world.blocksVector), toUpdateBlocks[..i])
        invariant old(world.chunks) <= world.chunks
        invariant forall k :: |old(world.chunks)| <= k < |world.chunks| ==> fresh(world.chunks[k].data)
      {
        var block := toUpdateBlocks[i];
        var _ := world.SetBlock(block.vector, block.on);
        assert toUpdateBlocks[..i + 1][..i] == toUpdateBlocks[..i];
      }
      assert toUpdateBlocks[..|toUpdateBlocks|] == toUpdateBlocks;
    }

    /** The decision loop of a generation: count each candidate's live
        neighbours with `getBlock`, then record what the rules say. */
    method Decide(toCheckVectors: seq<Vector2>) returns (toUpdateBlocks: seq<Update>)
      requires Valid()
      ensures toUpdateBlocks == Decisions(Elems(world.blocksVector), toCheckVectors, live, death)
    {
      ghost var alive := Elems(world.blocksVector);
      toUpdateBlocks := [];
      for i := 0 to |toCheckVectors|
        invariant toUpdateBlocks == Decisions(alive, toCheckVectors[..i], live, death)
      {
        var blockVector := toCheckVectors[i];
        var count := 0;
        for k := 0 to |RoundVectors|
          invariant count == CountIn(alive, blockVector, RoundVectors[..k])
        {
          if world.GetBlock(blockVector.Add(RoundVectors[k])) {
            count := count + 1;
          }
          assert RoundVectors[..k + 1][..k] == RoundVectors[..k];
        }
        assert RoundVectors[..|RoundVectors|] == RoundVectors;
        if world.GetBlock(blockVector) {
          if IndexOf(live, count) == -1 {
            toUpdateBlocks := toUpdateBlocks + [Update(false, blockVector)];
          }
        } else {
          if IndexOf(death, count) != -1 {
            toUpdateBlocks := toUpdateBlocks + [Update(true, blockVector)];
          } else {
            toUpdateBlocks := toUpdateBlocks + [Update(false, blockVector)];
          }
        }
        assert toCheckVectors[..i + 1][..i] == toCheckVectors[..i];
      }
      assert toCheckVectors[..|toCheckVectors|] == toCheckVectors;
    }
  }
}
