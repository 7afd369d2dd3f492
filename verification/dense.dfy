/** Conversion of a sparse matrix to a dense row-major grid. */
module Dense {
  import opened Results
  import opened Sparse

  /** The length of `[0] * n` or `range(n)`: a negative count gives no elements. */
  function Count(n: int): nat {
    if n < 0 then 0 else n
  }

  /** A list index into a list of length `n`: negative indices count from the
      end, so exactly `-n <= i < n` is usable. */
  predicate Indexable(i: int, n: int) {
    -n <= i < n
  }

  /** The position a usable list index refers to. */
  function Wrap(i: int, n: int): (p: int)
    ensures Indexable(i, n) ==> 0 <= p < n
    ensures 0 <= i ==> p == i
    ensures i < 0 ==> p == i + n
  {
    if i < 0 then i + n else i
  }

  /** The grid cell a stored key is written to. */
  function Cell(m: SparseMatrix, key: Key): Key {
    (Wrap(key.0, Count(m.rows)), Wrap(key.1, Count(m.cols)))
  }

  /** Every stored key is a usable index pair for the grid. */
  predicate Placeable(m: SparseMatrix) {
    forall key | key in m.elements :: Indexable(key.0, Count(m.rows)) && Indexable(key.1, Count(m.cols))
  }

  /** Cell `(i, j)` holds 0 when no key in `keys` is written there, and
      otherwise the value of one of the keys written there. */
  predicate Filled(m: SparseMatrix, keys: set<Key>, d: seq<seq<int>>, i: int, j: int)
    requires keys <= m.elements.Keys
    requires 0 <= i < |d| && 0 <= j < |d[i]|
  {
    if exists key | key in keys :: Cell(m, key) == (i, j) then
      exists key | key in keys && Cell(m, key) == (i, j) :: d[i][j] == m.elements[key]
    else d[i][j] == 0
  }

  /** `to_dense`: a zero-filled `rows x cols` grid over which every stored
      entry is written at its coordinate, a negative coordinate counting from
      the end of its row or column. A key outside what the grid can index
      is an index error. Which of two keys that reach the same cell wins
      depends on the dictionary's order, so only "one of them" is promised. */
  method ToDense(m: SparseMatrix) returns (res: Result<seq<seq<int>>>)
    ensures res.Err? <==> !Placeable(m)
    ensures res.Err? ==> res.error == IndexError
    ensures res.Ok? ==> |res.value| == Count(m.rows)
    ensures res.Ok? ==> forall i | 0 <= i < |res.value| :: |res.value[i]| == Count(m.cols)
    ensures res.Ok? ==>
              forall i, j | 0 <= i < |res.value| && 0 <= j < |res.value[i]| ::
                Filled(m, m.elements.Keys, res.value, i, j)
  {
    var rows, cols := Count(m.rows), Count(m.cols);
    var d := seq(rows, _ => seq(cols, _ => 0));
    var todo := m.elements.Keys;
    ghost var done: set<Key> := {};
    while todo != {}
      invariant todo <= m.elements.Keys && done == m.elements.Keys - todo
      invariant forall key | key in done :: Indexable(key.0, rows) && Indexable(key.1, cols)
      invariant |d| == rows
      invariant forall i | 0 <= i < rows :: |d[i]| == cols
      invariant forall i, j | 0 <= i < rows && 0 <= j < cols :: Filled(m, done, d, i, j)
      decreases todo
    {
      var key :| key in todo;
      if !(Indexable(key.0, rows) && Indexable(key.1, cols)) {
        return Err(IndexError);
      }
      var cell := Cell(m, key);
      ghost var before := d;
      d := d[cell.0 := d[cell.0][cell.1 := m.elements[key]]];
      forall i, j | 0 <= i < rows && 0 <= j < cols ensures Filled(m, done + {key}, d, i, j) {
        if (i, j) == cell {
          assert Cell(m, key) == (i, j) && d[i][j] == m.elements[key];
        } else {
          assert Filled(m, done, before, i, j) && d[i][j] == before[i][j];
        }
      }
      todo := todo - {key};
      done := done + {key};
    }
    assert done == m.elements.Keys;
    return Ok(d);
  }

  /** For a matrix whose keys are all non-negative, every key lands on its own
      cell, so the grid is exactly the matrix read cell by cell. */
  lemma DenseOfInBounds(m: SparseMatrix, d: seq<seq<int>>)
    requires InBounds(m)
    requires |d| == Count(m.rows) && forall i | 0 <= i < |d| :: |d[i]| == Count(m.cols)
    requires forall i, j | 0 <= i < |d| && 0 <= j < |d[i]| :: Filled(m, m.elements.Keys, d, i, j)
    ensures Placeable(m)
    ensures forall i, j | 0 <= i < |d| && 0 <= j < |d[i]| :: d[i][j] == Get(m, i, j)
  {
    forall i, j | 0 <= i < |d| && 0 <= j < |d[i]| ensures d[i][j] == Get(m, i, j) {
      assert Filled(m, m.elements.Keys, d, i, j);
      if (i, j) in m.elements {
        assert Cell(m, (i, j)) == (i, j);
      } else {
        forall key | key in m.elements ensures Cell(m, key) != (i, j) {
          assert Cell(m, key) == key;
        }
      }
    }
  }
}
