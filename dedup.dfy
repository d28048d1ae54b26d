/** Removing duplicate coordinates from a list, keeping the first occurrence
    of each value and the relative order of the survivors. */
module Dedup {
  import opened Vectors

  /** The values of `s` not in `seen`, each at its first occurrence, in order. */
  function UniqueFrom(s: seq<Vector2>, seen: set<Vector2>): seq<Vector2> {
    if s == [] then []
    else if s[0] in seen then UniqueFrom(s[1..], seen)
    else [s[0]] + UniqueFrom(s[1..], seen + {s[0]})
  }

  /** The list of first occurrences: what deduplication must produce. */
  function Unique(s: seq<Vector2>): seq<Vector2> {
    UniqueFrom(s, {})
  }

  /** An independent description of the same list, built from the end: an
      entry is kept exactly when it does not occur earlier. */
  function FirstOccurrences(s: seq<Vector2>): seq<Vector2> {
    if s == [] then []
    else
      var init := s[..|s| - 1];
      FirstOccurrences(init) + (if s[|s| - 1] in init then [] else [s[|s| - 1]])
  }

  lemma {:induction false} UniqueFromContents(s: seq<Vector2>, seen: set<Vector2>)
    ensures NoDups(UniqueFrom(s, seen))
    ensures forall x :: x in UniqueFrom(s, seen) <==> x in s && x !in seen
  {
    if s != [] {
      if s[0] in seen {
        UniqueFromContents(s[1..], seen);
        assert s == [s[0]] + s[1..];
      } else {
        var rest := UniqueFrom(s[1..], seen + {s[0]});
        UniqueFromContents(s[1..], seen + {s[0]});
        assert s == [s[0]] + s[1..];
        var r := [s[0]] + rest;
        forall i, j | 0 <= i < |r| && 0 <= j < |r| && i != j ensures r[i] != r[j] {
          if i == 0 {
            assert r[j] == rest[j - 1];
          } else if j == 0 {
            assert r[i] == rest[i - 1];
          } else {
            assert r[i] == rest[i - 1] && r[j] == rest[j - 1];
          }
        }
      }
    }
  }

  /** The deduplicated list has no duplicates and the same values as the input. */
  lemma UniqueContents(s: seq<Vector2>)
    ensures NoDups(Unique(s))
    ensures forall x :: x in Unique(s) <==> x in s
  {
    UniqueFromContents(s, {});
  }

  /** A list without duplicates is its own deduplication. */
  lemma {:induction false} UniqueFromNoDups(s: seq<Vector2>, seen: set<Vector2>)
    requires NoDups(s)
    requires forall x :: x in s ==> x !in seen
    ensures UniqueFrom(s, seen) == s
  {
    if s != [] {
      assert s[0] !in s[1..] by {
        forall k | 0 <= k < |s| - 1 ensures s[1..][k] != s[0] {
          assert s[1..][k] == s[k + 1];
        }
      }
      assert NoDups(s[1..]) by {
        forall i, j | 0 <= i < |s| - 1 && 0 <= j < |s| - 1 && i != j
          ensures s[1..][i] != s[1..][j]
        {
          assert s[1..][i] == s[i + 1] && s[1..][j] == s[j + 1];
        }
      }
      UniqueFromNoDups(s[1..], seen + {s[0]});
    }
  }

  lemma UniqueOfNoDups(s: seq<Vector2>)
    requires NoDups(s)
    ensures Unique(s) == s
  {
    UniqueFromNoDups(s, {});
  }

  /** Deleting an entry whose value already occurred (earlier, or in `seen`)
      does not change the list of first occurrences. */
  lemma {:induction false} UniqueFromDropRepeat(s: seq<Vector2>, j: nat, seen: set<Vector2>)
    requires j < |s|
    requires s[j] in seen || s[j] in s[..j]
    ensures UniqueFrom(s[..j] + s[j + 1..], seen) == UniqueFrom(s, seen)
  {
    if j == 0 {
      assert s[..0] + s[1..] == s[1..];
    } else {
      var t := s[..j] + s[j + 1..];
      assert t[0] == s[0];
      assert t[1..] == s[1..][..j - 1] + s[1..][j..];
      var seen' := if s[0] in seen then seen else seen + {s[0]};
      assert s[j] in seen' || s[j] in s[1..][..j - 1] by {
        if s[j] !in seen && s[j] != s[0] {
          var k :| 0 <= k < j && s[..j][k] == s[j];
          assert s[1..][..j - 1][k - 1] == s[j];
        }
      }
      UniqueFromDropRepeat(s[1..], j - 1, seen');
    }
  }

  /** Appending one entry extends the first occurrences by that entry exactly
      when its value is new. */
  lemma {:induction false} UniqueFromSnoc(s: seq<Vector2>, x: Vector2, seen: set<Vector2>)
    ensures UniqueFrom(s + [x], seen) ==
              UniqueFrom(s, seen) + (if x in seen || x in s then [] else [x])
  {
    if s == [] {
      assert [x][1..] == [];
    } else {
      assert (s + [x])[1..] == s[1..] + [x];
      var seen' := if s[0] in seen then seen else seen + {s[0]};
      UniqueFromSnoc(s[1..], x, seen');
      assert s == [s[0]] + s[1..];
    }
  }

  /** Both descriptions of deduplication agree: the result is the
      subsequence of first occurrences in their original order. */
  lemma {:induction false} UniqueIsFirstOccurrences(s: seq<Vector2>)
    ensures Unique(s) == FirstOccurrences(s)
  {
    if s != [] {
      var init := s[..|s| - 1];
      UniqueIsFirstOccurrences(init);
      UniqueFromSnoc(init, s[|s| - 1], {});
      assert init + [s[|s| - 1]] == s;
    }
  }

  /** Nothing survives when every value has been seen already. */
  lemma {:induction false} UniqueFromAllSeen(s: seq<Vector2>, seen: set<Vector2>)
    requires forall i :: 0 <= i < |s| ==> s[i] in seen
    ensures UniqueFrom(s, seen) == []
  {
    if s != [] {
      UniqueFromAllSeen(s[1..], seen);
    }
  }

  /** Deduplicating a list whose entries are all equal leaves one entry. */
  lemma UniqueAllEqual(s: seq<Vector2>)
    requires |s| > 0
    requires forall i :: 0 <= i < |s| ==> s[i] == s[0]
    ensures Unique(s) == [s[0]]
  {
    UniqueFromAllSeen(s[1..], {s[0]});
    assert Unique(s) == [s[0]] + UniqueFrom(s[1..], {} + {s[0]});
    assert {} + {s[0]} == {s[0]};
  }

  /** The empty and the one-entry list are left as they are. */
  lemma UniqueShortLists(x: Vector2)
    ensures Unique([]) == []
    ensures Unique([x]) == [x]
  {
    UniqueAllEqual([x]);
  }

  /** `toUniqueVectorArray`: for every `i`, deletes each later entry equal to
      entry `i`, re-examining the position that the deletion shifted into.
      The list is edited in place in the game; here the edited list is
      returned. */
  method ToUniqueVectorArray(vectors: seq<Vector2>) returns (r: seq<Vector2>)
    ensures r == Unique(vectors)
    ensures NoDups(r)
  {
    r := vectors;
    var i := 0;
    while i < |r|
      invariant 0 <= i <= |r|
      invariant Unique(r) == Unique(vectors)
      invariant forall p, q :: 0 <= p < q < i ==> r[p] != r[q]
      invariant forall p, q :: 0 <= p < i <= q < |r| ==> r[p] != r[q]
      decreases |r| - i
    {
      ghost var n := |r|;
      var j := i + 1;
      while j < |r|
        invariant i + 1 <= j <= |r| <= n
        invariant Unique(r) == Unique(vectors)
        invariant forall p, q :: 0 <= p < q < i ==> r[p] != r[q]
        invariant forall p, q :: 0 <= p < i <= q < |r| ==> r[p] != r[q]
        invariant forall q :: i < q < j ==> r[q] != r[i]
        decreases |r| - j
      {
        if r[i].Compare(r[j]) {
          assert r[..j][i] == r[j];
          UniqueFromDropRepeat(r, j, {});
          r := r[..j] + r[j + 1..];
          j := j - 1;
        }
        j := j + 1;
      }
      i := i + 1;
    }
    UniqueOfNoDups(r);
  }
}
