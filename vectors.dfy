/** Integer grid coordinates: the `Vector2` of the game, as it is used by the
    world and the simulation (cell indices and chunk indices, never pixels). */
module Vectors {

  datatype Vector2 = Vector2(x: int, y: int) {

    function Add(v: Vector2): Vector2 {
      Vector2(x + v.x, y + v.y)
    }

    /** The difference; adding `v` back undoes it. */
    function Subtract(v: Vector2): (r: Vector2)
      ensures r.Add(v) == this
    {
      Vector2(x - v.x, y - v.y)
    }

    /** Scaling by `k`; for a positive factor, floor division by `k` undoes it. */
    function Mul(k: int): (r: Vector2)
      ensures k > 0 ==> Vector2(r.x / k, r.y / k) == this
    {
      if k > 0 then
        ScaleDivides(x, k);
        ScaleDivides(y, k);
        Vector2(x * k, y * k)
      else
        Vector2(x * k, y * k)
    }

    /** Component-wise comparison; it coincides with value equality. */
    function Compare(v: Vector2): (r: bool)
      ensures r <==> this == v
    {
      x == v.x && y == v.y
    }
  }

  const Origin := Vector2(0, 0)

  /** Translating by `v` and then subtracting `v` gives the vector back. */
  lemma AddThenSubtract(u: Vector2, v: Vector2)
    ensures u.Add(v).Subtract(v) == u
  {
  }

  /** Floor division by a positive `k` undoes multiplication by `k`. */
  lemma ScaleDivides(a: int, k: int)
    requires k > 0
    ensures (a * k) / k == a
  {
    var q := (a * k) / k;
    var m := (a * k) % k;
    assert a * k == q * k + m && 0 <= m < k;
    var d := a - q;
    assert d * k == m by {
      assert d * k == a * k - q * k;
    }
  }

  /** No coordinate is listed twice. */
  predicate NoDups(s: seq<Vector2>) {
    forall i, j :: 0 <= i < |s| && 0 <= j < |s| && i != j ==> s[i] != s[j]
  }

  /** The set of values listed in `s`. */
  function Elems(s: seq<Vector2>): set<Vector2> {
    set x | x in s
  }
}
