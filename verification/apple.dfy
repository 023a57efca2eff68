/** Apple placement by rejection sampling (GetRandCoord). The random
    generator is not modelled: its successive `(Next(width), Next(height))`
    pairs are passed in as the sequence `draws`. */
module Apple {
  import opened Grid

  /** Every draw lies on the board, as `Random.Next(n)` returns `0 .. n-1`. */
  predicate AllInGrid(draws: seq<Cell>, w: int, h: int)
  {
    forall i :: 0 <= i < |draws| ==> InGrid(draws[i], w, h)
  }

  /** Some draw falls outside the forbidden cells, so sampling stops. */
  predicate Admits(draws: seq<Cell>, forbidden: seq<Cell>)
  {
    exists i :: 0 <= i < |draws| && draws[i] !in forbidden
  }

  /** The draw rejection sampling settles on: the first one not forbidden. */
  function FirstAllowed(draws: seq<Cell>, forbidden: seq<Cell>): (r: Option<Cell>)
    ensures r.Some? <==> Admits(draws, forbidden)
    ensures r.Some? ==> r.value in draws && r.value !in forbidden
    ensures r.Some? ==> exists i :: 0 <= i < |draws| && draws[i] == r.value
                                    && forall j :: 0 <= j < i ==> draws[j] in forbidden
  {
    if |draws| == 0 then None
    else if draws[0] !in forbidden then Some(draws[0])
    else
      var r := FirstAllowed(draws[1..], forbidden);
      assert Admits(draws[1..], forbidden) <==> Admits(draws, forbidden) by {
        if i :| 0 <= i < |draws| && draws[i] !in forbidden {
          assert draws[1..][i - 1] == draws[i];
        }
      }
      assert r.Some? ==> exists i :: 0 <= i < |draws| && draws[i] == r.value
                                     && forall j :: 0 <= j < i ==> draws[j] in forbidden by {
        if r.Some? {
          var i :| 0 <= i < |draws[1..]| && draws[1..][i] == r.value
                   && forall j :: 0 <= j < i ==> draws[1..][j] in forbidden;
          assert forall j :: 0 <= j < i + 1 ==> draws[j] in forbidden by {
            forall j | 0 < j < i + 1 ensures draws[j] in forbidden {
              assert draws[j] == draws[1..][j - 1];
            }
          }
        }
      }
      r
  }

  /** GetRandCoord: draw cells until one is not forbidden, and return it. */
  method GetRandCoord(forbidden: seq<Cell>, draws: seq<Cell>, w: int, h: int) returns (p: Cell)
    requires AllInGrid(draws, w, h)
    requires Admits(draws, forbidden)
    ensures InGrid(p, w, h) && p !in forbidden
    ensures FirstAllowed(draws, forbidden) == Some(p)
  {
    var i := 0;
    while true
      invariant 0 <= i < |draws|
      invariant Admits(draws[i..], forbidden)
      invariant FirstAllowed(draws[i..], forbidden) == FirstAllowed(draws, forbidden)
      decreases |draws| - i
    {
      var c := draws[i];
      if c !in forbidden {
        return c;
      }
      assert draws[i..][1..] == draws[i + 1..];
      i := i + 1;
    }
  }

  /** Two different draws, neither of them `start`, are enough for the
      placement after a reset, whatever cell the old apple occupies. */
  predicate SpareDraws(draws: seq<Cell>, start: Cell)
  {
    exists i, j :: 0 <= i < |draws| && 0 <= j < |draws| && draws[i] != draws[j]
                   && draws[i] != start && draws[j] != start
  }

  lemma SpareDrawsAdmit(draws: seq<Cell>, start: Cell, oldApple: Cell)
    requires SpareDraws(draws, start)
    ensures Admits(draws, [oldApple, start])
  {
    var i, j :| 0 <= i < |draws| && 0 <= j < |draws| && draws[i] != draws[j]
                && draws[i] != start && draws[j] != start;
    if draws[i] == oldApple {
      assert draws[j] !in [oldApple, start];
    } else {
      assert draws[i] !in [oldApple, start];
    }
  }
}
