/** The sparse integer matrix: a pair of dimensions and a finite map from
    `(row, col)` coordinates to values, with element access and mutation. */
module Sparse {
  import opened Results

  /** A `(row, col)` coordinate. Integers rather than naturals: the source
      only ever checks upper bounds, so negative coordinates can be stored. */
  type Key = (int, int)

  datatype SparseMatrix = SparseMatrix(rows: int, cols: int, elements: map<Key, int>)

  /** Every stored key passes the upper-bound test that both the loader and
      `set_element` apply. Every matrix the program can build has this shape. */
  predicate WellFormed(m: SparseMatrix) {
    forall key | key in m.elements :: key.0 < m.rows && key.1 < m.cols
  }

  /** Every stored key lies inside the `rows x cols` grid, on both sides. */
  predicate InBounds(m: SparseMatrix) {
    forall key | key in m.elements :: 0 <= key.0 < m.rows && 0 <= key.1 < m.cols
  }

  /** No key is mapped to zero: a zero entry is represented by absence. */
  predicate NoStoredZero(m: SparseMatrix) {
    forall key | key in m.elements :: m.elements[key] != 0
  }

  /** The value at `(r, c)`; an absent key reads as zero. */
  function Get(m: SparseMatrix, r: int, c: int): int {
    if (r, c) in m.elements then m.elements[(r, c)] else 0
  }

  /** A fresh matrix with the given dimensions and nothing stored. */
  function Empty(rows: int, cols: int): (m: SparseMatrix)
    ensures m.rows == rows && m.cols == cols
    ensures forall i, j :: Get(m, i, j) == 0
    ensures WellFormed(m) && InBounds(m) && NoStoredZero(m)
  {
    SparseMatrix(rows, cols, map[])
  }

  /** `set_element`: rejects a row or column at or past the upper bound,
      stores a non-zero value, and removes the key for a zero value. */
  function Set(m: SparseMatrix, r: int, c: int, v: int): (res: Result<SparseMatrix>)
    ensures res.Err? <==> r >= m.rows || c >= m.cols
    ensures res.Err? ==> res.error == IndexError
    ensures res.Ok? ==> res.value.rows == m.rows && res.value.cols == m.cols
    ensures res.Ok? ==> forall i, j :: Get(res.value, i, j) == if (i, j) == (r, c) then v else Get(m, i, j)
    ensures res.Ok? ==> ((r, c) in res.value.elements <==> v != 0)
    ensures res.Ok? ==> res.value.elements - {(r, c)} == m.elements - {(r, c)}
    ensures res.Ok? && WellFormed(m) ==> WellFormed(res.value)
    ensures res.Ok? && InBounds(m) && 0 <= r && 0 <= c ==> InBounds(res.value)
    ensures res.Ok? && NoStoredZero(m) ==> NoStoredZero(res.value)
  {
    if r >= m.rows || c >= m.cols then
      Err(IndexError)
    else if v != 0 then
      Ok(m.(elements := m.elements[(r, c) := v]))
    else
      Ok(m.(elements := m.elements - {(r, c)}))
  }

  /** A matrix that stores no zeros is determined by its dimensions and its
      values: whatever order the entries were written in, the same pointwise
      values give the same map. */
  lemma Canonical(x: SparseMatrix, y: SparseMatrix)
    requires NoStoredZero(x) && NoStoredZero(y)
    requires x.rows == y.rows && x.cols == y.cols
    requires forall i, j :: Get(x, i, j) == Get(y, i, j)
    ensures x == y
  {
    forall key | key in x.elements
      ensures key in y.elements && y.elements[key] == x.elements[key]
    {
      assert Get(x, key.0, key.1) == Get(y, key.0, key.1);
    }
    forall key | key in y.elements
      ensures key in x.elements
    {
      assert Get(x, key.0, key.1) == Get(y, key.0, key.1);
    }
    assert x.elements == y.elements;
  }
}
