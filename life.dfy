/** One generation of the automaton: the reference definition over the set of
    live cells, and the pieces the game's step is built from (the candidate
    list, the per-candidate decisions, and the batch of `setBlock` calls). */
module Life {
  import opened Vectors
  import opened Dedup
  import opened Worlds

  /** The eight Moore-neighbourhood offsets, in the order the game visits them. */
  const RoundVectors: seq<Vector2> := [
    Vector2(-1, -1), Vector2(0, -1), Vector2(1, -1),
    Vector2(-1, 0), Vector2(1, 0),
    Vector2(-1, 1), Vector2(0, 1), Vector2(1, 1)
  ]

  /** The offsets of a cell's 3x3 block: itself and its eight neighbours. */
  const BlockOffsets: seq<Vector2> := [Origin] + RoundVectors

  /** The offsets are exactly the eight non-zero vectors with components in
      {-1, 0, 1}, each listed once. */
  lemma RoundVectorsAreMooreNeighbourhood(r: Vector2)
    ensures |RoundVectors| == 8 && NoDups(RoundVectors)
    ensures r in RoundVectors <==> r != Origin && -1 <= r.x <= 1 && -1 <= r.y <= 1
  {
  }

  /** The eight neighbours of `b`, in visiting order. */
  function Neighbours(b: Vector2): seq<Vector2> {
    seq(|RoundVectors|, k requires 0 <= k < |RoundVectors| => b.Add(RoundVectors[k]))
  }

  /** The neighbours of `b` are its Moore neighbourhood: the eight cells at
      most one step away in each axis, `b` excluded, each listed once. */
  lemma NeighboursAreMoore(b: Vector2)
    ensures NoDups(Neighbours(b))
    ensures forall w :: w in Neighbours(b) <==> w != b && -1 <= w.x - b.x <= 1 && -1 <= w.y - b.y <= 1
  {
    var ns := Neighbours(b);
    RoundVectorsAreMooreNeighbourhood(Origin);
    forall i, j | 0 <= i < |ns| && 0 <= j < |ns| && i != j ensures ns[i] != ns[j] {
      assert RoundVectors[i] != RoundVectors[j];
      assert ns[i].Subtract(b) == RoundVectors[i] && ns[j].Subtract(b) == RoundVectors[j];
    }
    forall w ensures w in ns <==> w != b && -1 <= w.x - b.x <= 1 && -1 <= w.y - b.y <= 1 {
      var r := w.Subtract(b);
      RoundVectorsAreMooreNeighbourhood(r);
      if w in ns {
        var k :| 0 <= k < |ns| && ns[k] == w;
        assert r == RoundVectors[k];
      }
      if r in RoundVectors {
        var k :| 0 <= k < |RoundVectors| && RoundVectors[k] == r;
        assert ns[k] == w;
      }
    }
  }

  /** The candidate list of a step before deduplication: for each entry of
      `blocksVector`, the entry itself followed by its eight neighbours. */
  function CandidateList(blocks: seq<Vector2>): seq<Vector2> {
    if blocks == [] then []
    else
      var b := blocks[|blocks| - 1];
      CandidateList(blocks[..|blocks| - 1]) + [b] + Neighbours(b)
  }

  /** The cells within one step (orthogonal or diagonal) of a cell of `alive`,
      including the cells of `alive` themselves. */
  function Region(alive: set<Vector2>): set<Vector2> {
    set c, r | c in alive && r in BlockOffsets :: c.Add(r)
  }

  /** The number of offsets `r` of `offsets` for which `v + r` is alive. */
  function CountIn(alive: set<Vector2>, v: Vector2, offsets: seq<Vector2>): (n: nat)
    ensures n <= |offsets|
  {
    if offsets == [] then 0
    else
      CountIn(alive, v, offsets[..|offsets| - 1]) +
      (if v.Add(offsets[|offsets| - 1]) in alive then 1 else 0)
  }

  /** The number of live Moore neighbours of `v`, the cell itself excluded. */
  function NeighbourCount(alive: set<Vector2>, v: Vector2): (n: nat)
    ensures n <= 8
  {
    CountIn(alive, v, RoundVectors)
  }

  /** `indexOf` on a list of counts: the first position of `x`, or -1. */
  function IndexOf(s: seq<int>, x: int): (k: int)
    ensures -1 <= k < |s|
    ensures k >= 0 ==> s[k] == x && x !in s[..k]
    ensures k == -1 <==> x !in s
  {
    if s == [] then -1
    else if s[0] == x then 0
    else
      var k := IndexOf(s[1..], x);
      if k < 0 then -1 else k + 1
  }

  /** The rule: a live cell survives iff its count is listed in `live`; a dead
      cell is born iff its count is listed in `death`. */
  predicate NextState(isAlive: bool, count: int, live: seq<int>, death: seq<int>) {
    if isAlive then count in live else count in death
  }

  /** The live cells after one generation: exactly the cells near a live cell
      whose rule says live. Cells farther away are never examined. */
  function NextGeneration(alive: set<Vector2>, live: seq<int>, death: seq<int>): set<Vector2> {
    set v | v in Region(alive) && NextState(v in alive, NeighbourCount(alive, v), live, death)
  }

  /** A recorded decision of the step: the cell and the state to write. */
  datatype Update = Update(on: bool, vector: Vector2)

  /** What the step records for candidate `v`: a live cell whose count is not
      in `live` is set dead, a surviving live cell is left alone, and a dead
      cell is always written, live iff its count is in `death`. */
  function Decision(alive: set<Vector2>, v: Vector2, live: seq<int>, death: seq<int>): seq<Update> {
    var count := NeighbourCount(alive, v);
    if v in alive then
      (if count !in live then [Update(false, v)] else [])
    else if count in death then [Update(true, v)]
    else [Update(false, v)]
  }

  /** The decisions for the candidates, in candidate order. */
  function Decisions(alive: set<Vector2>, cands: seq<Vector2>, live: seq<int>, death: seq<int>): seq<Update> {
    if cands == [] then []
    else
      Decisions(alive, cands[..|cands| - 1], live, death) +
      Decision(alive, cands[|cands| - 1], live, death)
  }

  /** `blocksVector` after `setBlock` has been called for each update in turn. */
  function ApplyUpdates(blocks: seq<Vector2>, ups: seq<Update>): seq<Vector2> {
    if ups == [] then blocks
    else
      var u := ups[|ups| - 1];
      UpdatedBlocks(ApplyUpdates(blocks, ups[..|ups| - 1]), u.vector, u.on)
  }

  datatype Option<T> = None | Some(value: T)

  /** The state the last update for `w` writes, if any update is for `w`. */
  function LastUpdate(ups: seq<Update>, w: Vector2): Option<bool> {
    if ups == [] then None
    else if ups[|ups| - 1].vector == w then Some(ups[|ups| - 1].on)
    else LastUpdate(ups[..|ups| - 1], w)
  }

  /** The `blocksVector` that one generation leaves behind, as the game
      computes it: candidates, deduplication, decisions against the old
      state, then the batch of writes. */
  function StepBlocks(blocks: seq<Vector2>, live: seq<int>, death: seq<int>): seq<Vector2> {
    ApplyUpdates(blocks, Decisions(Elems(blocks), Unique(CandidateList(blocks)), live, death))
  }

  // ---------------------------------------------------------------------
  // Candidates

  /** A cell is a candidate exactly when it lies in the region of the live
      cells. */
  lemma {:induction false} CandidateListIsRegion(blocks: seq<Vector2>, w: Vector2)
    ensures w in CandidateList(blocks) <==> w in Region(Elems(blocks))
  {
    if blocks != [] {
      var init := blocks[..|blocks| - 1];
      var b := blocks[|blocks| - 1];
      CandidateListIsRegion(init, w);
      assert Elems(blocks) == Elems(init) + {b} by {
        assert blocks == init + [b];
      }
      var tail := [b] + Neighbours(b);
      assert w in tail <==> exists r :: r in BlockOffsets && w == b.Add(r) by {
        if w in tail {
          if w == b {
            assert w == b.Add(BlockOffsets[0]);
          } else {
            var k :| 0 <= k < |Neighbours(b)| && Neighbours(b)[k] == w;
            assert w == b.Add(BlockOffsets[k + 1]);
          }
        }
        if r :| r in BlockOffsets && w == b.Add(r) {
          var k :| 0 <= k < |BlockOffsets| && BlockOffsets[k] == r;
          if k == 0 {
            assert w == b;
          } else {
            assert Neighbours(b)[k - 1] == w;
          }
        }
      }
    }
  }

  /** `v` is in the region exactly when `v - r` is alive for one of the nine
      block offsets `r`. */
  lemma RegionMembers(alive: set<Vector2>, v: Vector2)
    ensures v in Region(alive) <==> exists r :: r in BlockOffsets && v.Subtract(r) in alive
  {
  }

  // ---------------------------------------------------------------------
  // Counting

  /** A cell with no live cell within one step counts zero neighbours. */
  lemma {:induction false} CountInNone(alive: set<Vector2>, v: Vector2, offsets: seq<Vector2>)
    requires forall k :: 0 <= k < |offsets| ==> v.Add(offsets[k]) !in alive
    ensures CountIn(alive, v, offsets) == 0
  {
    if offsets != [] {
      CountInNone(alive, v, offsets[..|offsets| - 1]);
    }
  }

  /** Outside the region nothing is alive and every neighbour count is zero. */
  lemma FarCellsAreQuiet(alive: set<Vector2>, v: Vector2)
    requires v !in Region(alive)
    ensures v !in alive
    ensures NeighbourCount(alive, v) == 0
  {
    RegionMembers(alive, v);
    assert v.Subtract(BlockOffsets[0]) == v;
    forall k | 0 <= k < |RoundVectors| ensures v.Add(RoundVectors[k]) !in alive {
      var r := RoundVectors[k];
      var back := Vector2(-r.x, -r.y);
      RoundVectorsAreMooreNeighbourhood(back);
      assert back in BlockOffsets;
      assert v.Subtract(back) == v.Add(r);
    }
    CountInNone(alive, v, RoundVectors);
  }

  // ---------------------------------------------------------------------
  // Properties of one generation

  /** Cells far from every live cell stay dead, whatever the rules say: even
      with 0 listed in `death`, a cell with no live neighbour is born only if
      it is a candidate. */
  lemma FarCellsNeverBorn(alive: set<Vector2>, live: seq<int>, death: seq<int>, v: Vector2)
    requires v !in Region(alive)
    ensures v !in alive && v !in NextGeneration(alive, live, death)
    ensures NeighbourCount(alive, v) == 0
  {
    FarCellsAreQuiet(alive, v);
  }

  /** When 0 is not a birth count, restricting the step to candidates loses
      nothing: every cell of the plane follows the rule. */
  lemma NextGenerationIsGlobalRule(alive: set<Vector2>, live: seq<int>, death: seq<int>, v: Vector2)
    requires 0 !in death
    ensures v in NextGeneration(alive, live, death) <==>
              NextState(v in alive, NeighbourCount(alive, v), live, death)
  {
    if v !in Region(alive) {
      FarCellsAreQuiet(alive, v);
    }
  }

  // ---------------------------------------------------------------------
  // Applying the decisions

  /** Membership after a batch of writes: the last write to a cell decides,
      an unwritten cell keeps its membership. */
  lemma {:induction false} ApplyUpdatesMembers(blocks: seq<Vector2>, ups: seq<Update>, w: Vector2)
    ensures w in ApplyUpdates(blocks, ups) <==>
              match LastUpdate(ups, w) case Some(on) => on case None => w in blocks
  {
    if ups != [] {
      ApplyUpdatesMembers(blocks, ups[..|ups| - 1], w);
    }
  }

  /** The decisions write a cell only if it is a candidate, and then exactly
      what the rule says (or nothing, for a survivor). */
  lemma {:induction false} LastDecision(alive: set<Vector2>, cands: seq<Vector2>, live: seq<int>, death: seq<int>, w: Vector2)
    ensures var last := LastUpdate(Decisions(alive, cands, live, death), w);
            && (w !in cands ==> last == None)
            && (w in cands ==>
                  if w in alive && NeighbourCount(alive, w) in live then last == None
                  else last == Some(NextState(w in alive, NeighbourCount(alive, w), live, death)))
  {
    if cands != [] {
      var init := cands[..|cands| - 1];
      var c := cands[|cands| - 1];
      LastDecision(alive, init, live, death, w);
      var d := Decision(alive, c, live, death);
      var ups := Decisions(alive, cands, live, death);
      assert cands == init + [c];
      if d == [] {
        assert ups == Decisions(alive, init, live, death);
      } else {
        assert ups[..|ups| - 1] == Decisions(alive, init, live, death);
      }
    }
  }

  /** The list one step leaves behind lists exactly the next generation. */
  lemma StepBlocksMembers(blocks: seq<Vector2>, live: seq<int>, death: seq<int>, w: Vector2)
    ensures w in StepBlocks(blocks, live, death) <==> w in NextGeneration(Elems(blocks), live, death)
  {
    var alive := Elems(blocks);
    var cands := Unique(CandidateList(blocks));
    UniqueContents(CandidateList(blocks));
    CandidateListIsRegion(blocks, w);
    ApplyUpdatesMembers(blocks, Decisions(alive, cands, live, death), w);
    LastDecision(alive, cands, live, death, w);
    if w !in Region(alive) {
      FarCellsAreQuiet(alive, w);
    }
  }

  /** The cells each decision writes, in order. */
  function Written(ups: seq<Update>): seq<Vector2> {
    seq(|ups|, k requires 0 <= k < |ups| => ups[k].vector)
  }

  /** Decisions over distinct candidates write distinct cells, write only
      candidates, and write "live" only to cells that were dead. */
  lemma {:induction false} DecisionsShape(alive: set<Vector2>, cands: seq<Vector2>, live: seq<int>, death: seq<int>)
    requires NoDups(cands)
    ensures var ups := Decisions(alive, cands, live, death);
            && NoDups(Written(ups))
            && (forall k :: 0 <= k < |ups| ==> ups[k].vector in cands)
            && (forall k :: 0 <= k < |ups| && ups[k].on ==> ups[k].vector !in alive)
  {
    if cands != [] {
      var init := cands[..|cands| - 1];
      var c := cands[|cands| - 1];
      assert NoDups(init) by {
        forall i, j | 0 <= i < |init| && 0 <= j < |init| && i != j ensures init[i] != init[j] {
          assert init[i] == cands[i] && init[j] == cands[j];
        }
      }
      assert c !in init by {
        forall k | 0 <= k < |init| ensures init[k] != c {
          assert init[k] == cands[k];
        }
      }
      DecisionsShape(alive, init, live, death);
      var prev := Decisions(alive, init, live, death);
      var ups := Decisions(alive, cands, live, death);
      var d := Decision(alive, c, live, death);
      assert ups == prev + d;
      forall k | 0 <= k < |ups| ensures ups[k].vector in cands {
        if k < |prev| {
          assert ups[k] == prev[k];
          assert prev[k].vector in init;
        } else {
          assert ups[k] == d[k - |prev|];
        }
      }
      var ws := Written(ups);
      forall i, j | 0 <= i < |ws| && 0 <= j < |ws| && i != j ensures ws[i] != ws[j] {
        if i < |prev| && j < |prev| {
          assert ws[i] == Written(prev)[i] && ws[j] == Written(prev)[j];
        } else if i < |prev| {
          assert ws[i] == prev[i].vector && ws[i] in init;
          assert ws[j] == c;
        } else if j < |prev| {
          assert ws[j] == prev[j].vector && ws[j] in init;
          assert ws[i] == c;
        }
      }
    }
  }

  /** A batch of writes to distinct cells, none of which writes "live" to a
      listed cell, keeps a duplicate-free list duplicate-free. */
  lemma {:induction false} ApplyUpdatesNoDups(blocks: seq<Vector2>, ups: seq<Update>)
    requires NoDups(blocks)
    requires NoDups(Written(ups))
    requires forall k :: 0 <= k < |ups| && ups[k].on ==> ups[k].vector !in blocks
    ensures NoDups(ApplyUpdates(blocks, ups))
  {
    if ups != [] {
      var init := ups[..|ups| - 1];
      var u := ups[|ups| - 1];
      assert Written(init) == Written(ups)[..|ups| - 1];
      ApplyUpdatesNoDups(blocks, init);
      var prev := ApplyUpdates(blocks, init);
      if u.on {
        assert LastUpdate(init, u.vector) == None by {
          forall k | 0 <= k < |init| ensures init[k].vector != u.vector {
            assert Written(ups)[k] == init[k].vector;
            assert Written(ups)[|ups| - 1] == u.vector;
          }
          LastUpdateAbsent(init, u.vector);
        }
        ApplyUpdatesMembers(blocks, init, u.vector);
        var r := prev + [u.vector];
        forall i, j | 0 <= i < |r| && 0 <= j < |r| && i != j ensures r[i] != r[j] {
          if i < |prev| && j < |prev| {
            assert r[i] == prev[i] && r[j] == prev[j];
          } else if i < |prev| {
            assert r[i] in prev;
          } else if j < |prev| {
            assert r[j] in prev;
          }
        }
      } else {
        RemoveAllNoDups(prev, u.vector);
      }
    }
  }

  /** No update for `w` means no last update for `w`. */
  lemma {:induction false} LastUpdateAbsent(ups: seq<Update>, w: Vector2)
    requires forall k :: 0 <= k < |ups| ==> ups[k].vector != w
    ensures LastUpdate(ups, w) == None
  {
    if ups != [] {
      LastUpdateAbsent(ups[..|ups| - 1], w);
    }
  }

  /** A step keeps `blocksVector` free of duplicates: born cells were dead
      and each is written once, dying cells are filtered out. */
  lemma StepBlocksNoDups(blocks: seq<Vector2>, live: seq<int>, death: seq<int>)
    requires NoDups(blocks)
    ensures NoDups(StepBlocks(blocks, live, death))
  {
    var cands := Unique(CandidateList(blocks));
    UniqueContents(CandidateList(blocks));
    DecisionsShape(Elems(blocks), cands, live, death);
    ApplyUpdatesNoDups(blocks, Decisions(Elems(blocks), cands, live, death));
  }

  // ---------------------------------------------------------------------
  // Collecting candidates, as the game does

  /** The first loop of a step: push each live entry, then each of its
      eight neighbours. */
  method CollectCandidates(blocks: seq<Vector2>) returns (toCheck: seq<Vector2>)
    ensures toCheck == CandidateList(blocks)
    ensures forall w :: w in toCheck <==> w in Region(Elems(blocks))
  {
    toCheck := [];
    for i := 0 to |blocks|
      invariant toCheck == CandidateList(blocks[..i])
    {
      var b := blocks[i];
      toCheck := toCheck + [b];
      for k := 0 to |RoundVectors|
        invariant toCheck == CandidateList(blocks[..i]) + [b] + Neighbours(b)[..k]
      {
        toCheck := toCheck + [b.Add(RoundVectors[k])];
      }
      assert blocks[..i + 1][..i] == blocks[..i];
    }
    assert blocks[..|blocks|] == blocks;
    forall w ensures w in toCheck <==> w in Region(Elems(blocks)) {
      CandidateListIsRegion(blocks, w);
    }
  }
}
