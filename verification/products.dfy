/** The reference definition of a matrix product entry, and the facts the
    sparse multiplication loop needs about it. */
module Products {
  import opened Sparse

  /** The ordinary inner product: the sum over `0 <= j < n` of
      `Get(a, i, j) * Get(b, j, k)`. */
  function Dot(a: SparseMatrix, b: SparseMatrix, i: int, k: int, n: int): int
    decreases n
  {
    if n <= 0 then 0 else Dot(a, b, i, k, n - 1) + Get(a, i, n - 1) * Get(b, n - 1, k)
  }

  /** `a` with only the stored entries whose key is in `keys`. */
  function Restrict(a: SparseMatrix, keys: set<Key>): (r: SparseMatrix)
    ensures r.rows == a.rows && r.cols == a.cols
    ensures forall i, j :: Get(r, i, j) == if (i, j) in keys then Get(a, i, j) else 0
  {
    a.(elements := map key | key in a.elements && key in keys :: a.elements[key])
  }

  /** A sum whose every term vanishes is zero. */
  lemma {:induction false} DotVanishes(a: SparseMatrix, b: SparseMatrix, i: int, k: int, n: int)
    requires forall j | 0 <= j < n :: Get(a, i, j) * Get(b, j, k) == 0
    ensures Dot(a, b, i, k, n) == 0
    decreases n
  {
    if n > 0 {
      DotVanishes(a, b, i, k, n - 1);
    }
  }

  /** Adding `v` at coordinate `(i0, j0)` of the left factor, with `j0` inside
      the summation range, adds `v * Get(b, j0, k)` to row `i0` of the product
      and leaves every other row alone. */
  lemma {:induction false} DotAddEntry(x: SparseMatrix, y: SparseMatrix, b: SparseMatrix,
                                       i0: int, j0: int, v: int, i: int, k: int, n: int)
    requires forall j :: Get(y, i, j) == Get(x, i, j) + (if i == i0 && j == j0 then v else 0)
    requires 0 <= j0 < n
    ensures Dot(y, b, i, k, n) == Dot(x, b, i, k, n) + (if i == i0 then v * Get(b, j0, k) else 0)
    decreases n
  {
    if n - 1 == j0 {
      DotAgree(x, y, b, i, k, n - 1);
    } else {
      DotAddEntry(x, y, b, i0, j0, v, i, k, n - 1);
    }
  }

  /** Left factors that agree on row `i` below column `n` give the same sum. */
  lemma {:induction false} DotAgree(x: SparseMatrix, y: SparseMatrix, b: SparseMatrix, i: int, k: int, n: int)
    requires forall j | 0 <= j < n :: Get(x, i, j) == Get(y, i, j)
    ensures Dot(x, b, i, k, n) == Dot(y, b, i, k, n)
    decreases n
  {
    if n > 0 {
      DotAgree(x, y, b, i, k, n - 1);
    }
  }
}
