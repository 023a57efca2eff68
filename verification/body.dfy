/** The snake's body list (snakeCoords): index 0 is the head, and the
    remaining slots form a ring whose next slot to recycle is `tailIndex`.
    These functions give the value of the list after each in-place update
    the window performs on it, and relate the ring to the snake it stands
    for. */
module Body {
  import opened Grid

  /** Collision: some cell occurs more than once in the list (the list is
      grouped by value and a group of two or more is looked for). */
  function Collision(b: seq<Cell>): (r: bool)
    ensures r <==> exists i, j :: 0 <= i < j < |b| && b[i] == b[j]
  {
    DuplicateIff(b);
    exists c :: c in b && multiset(b)[c] > 1
  }

  lemma DuplicateIff(b: seq<Cell>)
    ensures (exists c :: c in b && multiset(b)[c] > 1)
        <==> (exists i, j :: 0 <= i < j < |b| && b[i] == b[j])
  {
    if i, j :| 0 <= i < j < |b| && b[i] == b[j] {
      TwoIndicesCount(b, i, j);
    }
    if c :| c in b && multiset(b)[c] > 1 {
      var i, j := TwoOccurrences(b, c);
    }
  }

  /** Two equal entries make their value occur at least twice. */
  lemma TwoIndicesCount(b: seq<Cell>, i: int, j: int)
    requires 0 <= i < j < |b| && b[i] == b[j]
    ensures multiset(b)[b[i]] >= 2
  {
    assert b == b[..i] + [b[i]] + b[i + 1..j] + [b[j]] + b[j + 1..];
  }

  /** A value that occurs at least twice sits at two distinct indices. */
  lemma {:induction false} TwoOccurrences(b: seq<Cell>, c: Cell) returns (i: int, j: int)
    requires multiset(b)[c] > 1
    ensures 0 <= i < j < |b| && b[i] == c && b[j] == c
  {
    assert b == [b[0]] + b[1..];
    if b[0] == c {
      assert c in multiset(b[1..]);
      var k :| 0 <= k < |b[1..]| && b[1..][k] == c;
      i, j := 0, k + 1;
    } else {
      var i', j' := TwoOccurrences(b[1..], c);
      i, j := i' + 1, j' + 1;
    }
  }

  /** The list after GrowSnake's `Insert(tailIndex, snakeCoords[tailIndex])`:
      the entry at `t` is duplicated, entries before it keep their index and
      entries from it on move up by one. */
  function Grown(b: seq<Cell>, t: int): (r: seq<Cell>)
    requires 0 <= t < |b|
    ensures |r| == |b| + 1
    ensures r[0] == b[0]
    ensures forall k :: 0 <= k <= t ==> r[k] == b[k]
    ensures forall k :: t < k < |r| ==> r[k] == b[k - 1]
    ensures forall c :: c in r <==> c in b
  {
    var r := b[..t] + [b[t]] + b[t..];
    assert b == b[..t] + b[t..];
    r
  }

  /** Growth adds exactly one more copy of the cell at the tail pointer. */
  lemma GrownCells(b: seq<Cell>, t: int)
    requires 0 <= t < |b|
    ensures multiset(Grown(b, t)) == multiset(b) + multiset{b[t]}
  {
    assert b == b[..t] + b[t..];
  }

  /** The tail pointer after a move on a list of `n > 1` entries: the next
      slot, wrapping from the last slot back to 1 (slot 0 is the head). */
  function NextTail(t: int, n: int): (r: int)
    ensures 0 <= t < n && n > 1 ==> 1 <= r < n
    ensures 0 <= t < n - 1 ==> r == t + 1
    ensures n > 1 && t == n - 1 ==> r == 1
  {
    if t < n - 1 then t + 1 else 1
  }

  /** The tail pointer after `k` moves. */
  function TailAfter(t: int, n: int, k: nat): (r: int)
  {
    if k == 0 then t else NextTail(TailAfter(t, n, k - 1), n)
  }

  /** The tail pointer runs round the slots 1 .. n-1 in order, so each
      non-head slot is recycled once every n-1 moves. */
  lemma {:induction false} TailCycles(t: int, n: int, k: nat)
    requires n > 1 && 1 <= t < n
    ensures TailAfter(t, n, k) == 1 + (t - 1 + k) % (n - 1)
  {
    if k == 0 {
      WrapSmall(t - 1, n - 1);
    } else {
      TailCycles(t, n, k - 1);
      var m := t - 1 + k - 1;
      Succ(m, n - 1);
    }
  }

  /** The remainder of a successor. */
  lemma Succ(m: int, q: int)
    requires m >= 0 && q > 0
    ensures (m + 1) % q == if m % q == q - 1 then 0 else m % q + 1
  {
    var d, r := m / q, m % q;
    if r == q - 1 {
      DivisionUnique(m + 1, q, d + 1, 0);
    } else {
      DivisionUnique(m + 1, q, d, r + 1);
    }
  }

  /** Quotient and remainder are the only pair that rebuilds the dividend. */
  lemma DivisionUnique(a: int, q: int, d: int, r: int)
    requires q > 0 && 0 <= r < q && a == d * q + r
    ensures a % q == r
  {
    var d', r' := a / q, a % q;
    assert (d - d') * q == r' - r;
    MultipleBounds(d - d', q);
  }

  /** A non-zero multiple of `q` is at least `q` away from zero. */
  lemma MultipleBounds(k: int, q: int)
    requires q > 0
    ensures k >= 1 ==> k * q >= q
    ensures k <= -1 ==> k * q <= -q
  {
  }

  /** The list after Move: when there is more than the head, the slot at
      the tail pointer receives the old head; then the head slot receives
      the new head `nh`. */
  function Stepped(b: seq<Cell>, t: int, nh: Cell): (r: seq<Cell>)
    requires 0 <= t < |b|
    ensures |r| == |b| && r[0] == nh
    ensures forall k :: 0 < k < |b| && k != t ==> r[k] == b[k]
    ensures 0 < t ==> r[t] == b[0]
  {
    if |b| > 1 then b[t := b[0]][0 := nh] else b[0 := nh]
  }

  /** A move trades the cell at the tail pointer for the new head, for every
      pointer in range: also with the head alone, and with pointer 0 on the
      doubled list `[c, c]` left by the first meal. */
  lemma SteppedCells(b: seq<Cell>, t: int, nh: Cell)
    requires 0 <= t < |b|
    ensures multiset(Stepped(b, t, nh)) == multiset(b) - multiset{b[t]} + multiset{nh}
  {
  }

  /** The slot holding the segment `k + 1` places behind the head when the
      ring's next slot to recycle is `t` on a list of `n` entries: the slots
      are laid down in increasing order, so walking back from the newest
      (`t - 1`) reaches slot 1, wraps to `n - 1` and ends at `t`. */
  function RingSlot(t: int, k: int, n: int): (r: int)
  {
    if k <= t - 2 then t - 1 - k else t - 1 - k + (n - 1)
  }

  /** The snake the list stands for, from head to tail: the head, then the
      body segments newest first; the oldest is the one at the tail pointer. */
  function Snake(b: seq<Cell>, t: int): (r: seq<Cell>)
    requires 0 <= t < |b|
    ensures |r| == |b| && r[0] == b[0]
    ensures forall k :: 0 < k < |b| ==> r[k] == b[RingSlot(t, k - 1, |b|)]
    ensures |b| > 1 ==> r[|b| - 1] == b[t]
  {
    [b[0]] + Trail(b, t, |b| - 1)
  }

  /** The `m` segments right behind the head, newest first. */
  function Trail(b: seq<Cell>, t: int, m: nat): (r: seq<Cell>)
    requires 0 <= t < |b| && m < |b|
    ensures |r| == m
    ensures forall k :: 0 <= k < m ==> r[k] == b[RingSlot(t, k, |b|)]
  {
    if m == 0 then [] else Trail(b, t, m - 1) + [b[RingSlot(t, m - 1, |b|)]]
  }

  /** One move of the ring does what shifting every segment would do: the new
      head goes in front and the oldest segment drops off the end. */
  lemma SnakeAfterStep(b: seq<Cell>, t: int, nh: Cell)
    requires |b| > 1 && 0 <= t < |b|
    requires t == 0 ==> b[|b| - 1] == b[0]
    ensures Snake(Stepped(b, t, nh), NextTail(t, |b|)) == [nh] + Snake(b, t)[..|b| - 1]
  {
    var n := |b|;
    var r := Stepped(b, t, nh);
    var t' := NextTail(t, n);
    var lhs := Snake(r, t');
    var rhs := [nh] + Snake(b, t)[..n - 1];
    forall i | 0 <= i < n
      ensures lhs[i] == rhs[i]
    {
      if i > 1 {
        assert RingSlot(t', i - 1, n) == RingSlot(t, i - 2, n);
      }
    }
  }

  /** Growth appends a copy of the oldest segment at the end of the snake:
      the inserted duplicate becomes the new oldest. */
  lemma SnakeAfterGrowth(b: seq<Cell>, t: int)
    requires 0 <= t < |b|
    requires |b| > 1 ==> 1 <= t
    ensures Snake(Grown(b, t), t) == Snake(b, t) + [b[t]]
  {
    var n := |b|;
    var g := Grown(b, t);
    var lhs := Snake(g, t);
    var rhs := Snake(b, t) + [b[t]];
    forall i | 0 <= i <= n
      ensures lhs[i] == rhs[i]
    {
      if 0 < i < n && i - 1 >= t - 1 {
        assert RingSlot(t, i - 1, n + 1) == RingSlot(t, i - 1, n) + 1;
      }
    }
  }

  /** A tick without eating moves the snake as the textbook game does: the
      new head goes in front and the last segment drops off. */
  lemma SnakeMoves(b: seq<Cell>, t: int, nh: Cell)
    requires 0 <= t < |b|
    requires |b| > 1 ==> 1 <= t
    ensures Snake(Stepped(b, t, nh), if |b| > 1 then NextTail(t, |b|) else t)
            == [nh] + Snake(b, t)[..|b| - 1]
  {
    if |b| > 1 {
      SnakeAfterStep(b, t, nh);
    } else {
      assert Snake(Stepped(b, t, nh), t) == [nh];
    }
  }

  /** A tick that eats first keeps every segment and puts the new head in
      front: the growth fills the place the move frees. */
  lemma SnakeEatsAndMoves(b: seq<Cell>, t: int, nh: Cell)
    requires 0 <= t < |b|
    requires |b| > 1 ==> 1 <= t
    ensures Snake(Stepped(Grown(b, t), t, nh), NextTail(t, |b| + 1)) == [nh] + Snake(b, t)
  {
    var g := Grown(b, t);
    SnakeAfterGrowth(b, t);
    SnakeAfterStep(g, t, nh);
    assert Snake(g, t)[..|g| - 1] == Snake(b, t);
  }
}
