/** The three algebraic operators. Each builds a fresh result matrix through
    `Set`, visiting the operands' stored keys in an unspecified order (the
    source iterates a dictionary); the operands are values and are never
    changed. */
module Operators {
  import opened Results
  import opened Sparse
  import opened Products

  /** `A + B`: pass one writes `a + Get(b, key)` for every key stored in `a`;
      pass two writes `b`'s own value for every key stored in `b` but not in `a`. */
  method Add(a: SparseMatrix, b: SparseMatrix) returns (res: Result<SparseMatrix>)
    requires WellFormed(a) && WellFormed(b)
    ensures res.Err? <==> a.rows != b.rows || a.cols != b.cols
    ensures res.Err? ==> res.error == DimensionError
    ensures res.Ok? ==> res.value.rows == a.rows && res.value.cols == a.cols
    ensures res.Ok? ==> forall i, j :: Get(res.value, i, j) == Get(a, i, j) + Get(b, i, j)
    ensures res.Ok? ==> WellFormed(res.value) && NoStoredZero(res.value)
    ensures res.Ok? && InBounds(a) && InBounds(b) ==> InBounds(res.value)
  {
    if a.rows != b.rows || a.cols != b.cols {
      return Err(DimensionError);
    }
    var r := Empty(a.rows, a.cols);
    var todo := a.elements.Keys;
    while todo != {}
      invariant todo <= a.elements.Keys
      invariant r.rows == a.rows && r.cols == a.cols
      invariant WellFormed(r) && NoStoredZero(r)
      invariant InBounds(a) ==> InBounds(r)
      invariant forall i, j ::
                  Get(r, i, j) == if (i, j) in a.elements && (i, j) !in todo then Get(a, i, j) + Get(b, i, j) else 0
      decreases todo
    {
      var key :| key in todo;
      var s := Set(r, key.0, key.1, a.elements[key] + Get(b, key.0, key.1));
      r := s.value;
      todo := todo - {key};
    }
    todo := b.elements.Keys;
    while todo != {}
      invariant todo <= b.elements.Keys
      invariant r.rows == a.rows && r.cols == a.cols
      invariant WellFormed(r) && NoStoredZero(r)
      invariant InBounds(a) && InBounds(b) ==> InBounds(r)
      invariant forall i, j ::
                  Get(r, i, j) ==
                    if (i, j) in a.elements then Get(a, i, j) + Get(b, i, j)
                    else if (i, j) in b.elements && (i, j) !in todo then Get(b, i, j)
                    else 0
      decreases todo
    {
      var key :| key in todo;
      if key !in a.elements {
        var s := Set(r, key.0, key.1, b.elements[key]);
        r := s.value;
      }
      todo := todo - {key};
    }
    return Ok(r);
  }

  /** `A - B`: the same two passes as `Add`, writing `a - Get(b, key)` for the
      keys of `a` and `-b` for the keys stored only in `b`. */
  method Subtract(a: SparseMatrix, b: SparseMatrix) returns (res: Result<SparseMatrix>)
    requires WellFormed(a) && WellFormed(b)
    ensures res.Err? <==> a.rows != b.rows || a.cols != b.cols
    ensures res.Err? ==> res.error == DimensionError
    ensures res.Ok? ==> res.value.rows == a.rows && res.value.cols == a.cols
    ensures res.Ok? ==> forall i, j :: Get(res.value, i, j) == Get(a, i, j) - Get(b, i, j)
    ensures res.Ok? ==> WellFormed(res.value) && NoStoredZero(res.value)
    ensures res.Ok? && InBounds(a) && InBounds(b) ==> InBounds(res.value)
  {
    if a.rows != b.rows || a.cols != b.cols {
      return Err(DimensionError);
    }
    var r := Empty(a.rows, a.cols);
    var todo := a.elements.Keys;
    while todo != {}
      invariant todo <= a.elements.Keys
      invariant r.rows == a.rows && r.cols == a.cols
      invariant WellFormed(r) && NoStoredZero(r)
      invariant InBounds(a) ==> InBounds(r)
      invariant forall i, j ::
                  Get(r, i, j) == if (i, j) in a.elements && (i, j) !in todo then Get(a, i, j) - Get(b, i, j) else 0
      decreases todo
    {
      var key :| key in todo;
      var s := Set(r, key.0, key.1, a.elements[key] - Get(b, key.0, key.1));
      r := s.value;
      todo := todo - {key};
    }
    todo := b.elements.Keys;
    while todo != {}
      invariant todo <= b.elements.Keys
      invariant r.rows == a.rows && r.cols == a.cols
      invariant WellFormed(r) && NoStoredZero(r)
      invariant InBounds(a) && InBounds(b) ==> InBounds(r)
      invariant forall i, j ::
                  Get(r, i, j) ==
                    if (i, j) in a.elements then Get(a, i, j) - Get(b, i, j)
                    else if (i, j) in b.elements && (i, j) !in todo then -Get(b, i, j)
                    else 0
      decreases todo
    {
      var key :| key in todo;
      if key !in a.elements {
        var s := Set(r, key.0, key.1, -b.elements[key]);
        r := s.value;
      }
      todo := todo - {key};
    }
    return Ok(r);
  }

  /** The inner loop of `A * B` for one stored entry `(i0, j0) -> v1` of the
      left operand: every column `k` of `b` with `v2 = Get(b, j0, k)` non-zero
      gets `v1 * v2` added at `(i0, k)`, by reading the current value and
      writing the new one through `Set`. */
  method AccumulateEntry(r: SparseMatrix, b: SparseMatrix, i0: int, j0: int, v1: int)
    returns (r': SparseMatrix)
    requires WellFormed(r) && i0 < r.rows && r.cols == b.cols
    ensures r'.rows == r.rows && r'.cols == r.cols && WellFormed(r')
    ensures NoStoredZero(r) ==> NoStoredZero(r')
    ensures InBounds(r) && 0 <= i0 ==> InBounds(r')
    ensures forall i, k ::
              Get(r', i, k) == Get(r, i, k) + (if i == i0 && 0 <= k < b.cols then v1 * Get(b, j0, k) else 0)
  {
    r' := r;
    var k := 0;
    while k < b.cols
      invariant 0 <= k && (k <= b.cols || k == 0)
      invariant r'.rows == r.rows && r'.cols == r.cols && WellFormed(r')
      invariant NoStoredZero(r) ==> NoStoredZero(r')
      invariant InBounds(r) && 0 <= i0 ==> InBounds(r')
      invariant forall i, kk ::
                  Get(r', i, kk) == Get(r, i, kk) + (if i == i0 && 0 <= kk < k then v1 * Get(b, j0, kk) else 0)
      decreases b.cols - k
    {
      var v2 := Get(b, j0, k);
      if v2 != 0 {
        var s := Set(r', i0, k, Get(r', i0, k) + v1 * v2);
        r' := s.value;
      }
      k := k + 1;
    }
  }

  /** After the entries in `done` have been accumulated, one more stored entry
      `key` of an in-bounds `a` extends the partial product to `done + {key}`. */
  lemma ProductStep(a: SparseMatrix, b: SparseMatrix, done: set<Key>, key: Key,
                    r: SparseMatrix, r': SparseMatrix)
    requires InBounds(a) && key in a.elements && key !in done
    requires forall i, k :: 0 <= k < b.cols ==> Get(r, i, k) == Dot(Restrict(a, done), b, i, k, a.cols)
    requires forall i, k ::
               Get(r', i, k) == Get(r, i, k) + (if i == key.0 && 0 <= k < b.cols then a.elements[key] * Get(b, key.1, k) else 0)
    ensures forall i, k :: 0 <= k < b.cols ==> Get(r', i, k) == Dot(Restrict(a, done + {key}), b, i, k, a.cols)
  {
    forall i, k | 0 <= k < b.cols
      ensures Get(r', i, k) == Dot(Restrict(a, done + {key}), b, i, k, a.cols)
    {
      DotAddEntry(Restrict(a, done), Restrict(a, done + {key}), b, key.0, key.1, a.elements[key], i, k, a.cols);
    }
  }

  /** `A * B`: for every stored `(i, j) -> v1` of `a`, `AccumulateEntry` adds
      `v1 * Get(b, j, k)` into `(i, k)` for every column `k` of `b`. */
  method Multiply(a: SparseMatrix, b: SparseMatrix) returns (res: Result<SparseMatrix>)
    requires WellFormed(a) && WellFormed(b)
    ensures res.Err? <==> a.cols != b.rows
    ensures res.Err? ==> res.error == DimensionError
    ensures res.Ok? ==> res.value.rows == a.rows && res.value.cols == b.cols
    ensures res.Ok? ==> WellFormed(res.value) && NoStoredZero(res.value)
    ensures res.Ok? && InBounds(a) ==> InBounds(res.value)
    ensures res.Ok? ==> forall i, k :: !(0 <= k < b.cols) ==> Get(res.value, i, k) == 0
    ensures res.Ok? && InBounds(a) ==>
              forall i, k :: 0 <= k < b.cols ==> Get(res.value, i, k) == Dot(a, b, i, k, a.cols)
    ensures res.Ok? && InBounds(a) && InBounds(b) ==>
              forall i, k :: Get(res.value, i, k) == Dot(a, b, i, k, a.cols)
  {
    if a.cols != b.rows {
      return Err(DimensionError);
    }
    var r := Empty(a.rows, b.cols);
    var todo := a.elements.Keys;
    ghost var done: set<Key> := {};
    forall i, k {
      DotVanishes(Restrict(a, done), b, i, k, a.cols);
    }
    while todo != {}
      invariant todo <= a.elements.Keys && done == a.elements.Keys - todo
      invariant r.rows == a.rows && r.cols == b.cols
      invariant WellFormed(r) && NoStoredZero(r)
      invariant forall i, k :: !(0 <= k < b.cols) ==> Get(r, i, k) == 0
      invariant InBounds(a) ==> InBounds(r)
      invariant InBounds(a) ==>
                  forall i, k :: 0 <= k < b.cols ==> Get(r, i, k) == Dot(Restrict(a, done), b, i, k, a.cols)
      decreases todo
    {
      var key :| key in todo;
      var r' := AccumulateEntry(r, b, key.0, key.1, a.elements[key]);
      if InBounds(a) {
        ProductStep(a, b, done, key, r, r');
      }
      r := r';
      todo := todo - {key};
      done := done + {key};
    }
    assert done == a.elements.Keys;
    assert Restrict(a, done) == a;
    if InBounds(a) && InBounds(b) {
      forall i, k | !(0 <= k < b.cols) {
        DotVanishes(a, b, i, k, a.cols);
      }
    }
    return Ok(r);
  }
}
