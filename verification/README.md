# Sparse matrix model

A Dafny model of the `SparseMatrix` class in `sparse.py`. The class stores
only the non-zero entries of an integer matrix in a dictionary keyed by
`(row, col)`.

The model covers:
- reading and writing single elements (`get_element`, `set_element`);
- the three operators `+`, `-` and `*`;
- conversion to a dense list of rows (`to_dense`);
- the parsing part of the file loader (`_load_from_file`). It turns the lines of a file into the declared dimensions and the stored triples.

The modules are:

| module | file | contents |
|---|---|---|
| `Results` | results.dfy | error kinds, `Result`, `Option` |
| `Sparse` | sparse.dfy | the matrix value, its invariants, `Get`, `Empty`, `Set` |
| `Products` | products.dfy | `Dot`, the reference sum for one product cell, and lemmas about it |
| `Operators` | operators.dfy | `Add`, `Subtract`, `Multiply` |
| `Dense` | dense.dfy | `ToDense` |
| `Text` | text.dfy | the string functions the loader uses: `strip`, `split`, removing parentheses, decimal `int()` |
| `Loader` | loader.dfy | the line parser, its inverse `Format`, and the round trip between them |

A matrix is the value `SparseMatrix(rows, cols, elements)`.
- Coordinates and dimensions are unbounded `int`s. The source checks only upper bounds, so a negative coordinate or dimension is representable, exactly as in Python.
- `WellFormed` states that every stored key is below the dimensions. Every matrix the class builds satisfies it: `Empty`, the loader, `Set` and all three operators establish or preserve it. The operators require it of their operands.
- `InBounds` additionally requires non-negative keys.
- `NoStoredZero` states that no stored value is 0. `Set` and the operators keep it. The loader does not, because it stores a written `0` as is.

Every operation that can raise returns a `Result`:
- `IndexError` comes from `set_element` and from `to_dense`.
- `DimensionError` comes from the operators' shape checks.
- `FormatError` comes from the loader.

The source raises `ValueError` for both of the last two.

## Model

| member | source | states |
|---|---|---|
| Sparse.Empty | sparse.py:9-13 | a new matrix has the given dimensions and reads 0 at every position |
| Sparse.Set | sparse.py:47-60 | index error exactly when the row or column is at or past its upper bound; otherwise only `(r, c)` changes and it reads back `v`; a zero value removes the key and a non-zero value stores it; the invariants are kept |
| Sparse.Canonical | sparse.py:55-60 | two matrices without stored zeros that have the same dimensions and read the same everywhere are equal, so the sparse form is unique |
| Operators.Add | sparse.py:62-79 | dimension error exactly when the shapes differ; otherwise every position of the result reads the sum of the operands, and no zero is stored |
| Operators.Subtract | sparse.py:81-98 | dimension error exactly when the shapes differ; otherwise every position reads the difference, including `-b` where only `b` has an entry |
| Operators.AccumulateEntry | sparse.py:109-113 | one stored entry `(i0, j0) -> v1` of the left operand adds `v1 * b[j0][k]` at `(i0, k)` for each column `k` of `b`, and nothing elsewhere; an in-bounds partial result stays in bounds |
| Operators.ProductStep | sparse.py:109-113 | after one more entry of the left operand is accumulated, the partial result equals the product of `b` with the left operand restricted to the entries seen so far |
| Operators.Multiply | sparse.py:100-115 | dimension error exactly when `a.cols != b.rows`; the result is `a.rows x b.cols`; each in-range cell `(i, k)` is `sum over j of a[i][j] * b[j][k]`; nothing is stored outside the columns of `b`; an in-bounds left operand gives an in-bounds result |
| Products.DotAddEntry | sparse.py:113 | adding `v` at `(i0, j0)` of the left factor adds `v * b[j0][k]` to row `i0` of the product and leaves other rows unchanged |
| Dense.Wrap | sparse.py:121 | a usable list index maps to a position inside the list; a non-negative index maps to itself and a negative index `i` to `i + n`, counting from the end |
| Dense.ToDense | sparse.py:117-122 | index error exactly when some key cannot index the grid; otherwise a `max(rows,0) x max(cols,0)` grid where a cell holds 0 if no key lands on it, and otherwise the value of a key that lands on it |
| Dense.DenseOfInBounds | sparse.py:117-122 | for a matrix with non-negative keys, the dense grid is the matrix read cell by cell |
| Text.Strip | sparse.py:20 | the result neither starts nor ends with whitespace (tab to carriage return, the four information separators and space), is empty exactly for all-whitespace text, and is the input itself when that has nothing to strip |
| Text.StripSlice | sparse.py:20 | the stripped text is a slice `s[a..b]` of the input with only whitespace before `a` and after `b` |
| Text.StripIdempotent | sparse.py:20 | stripping a stripped line changes nothing |
| Text.TrimPadded | sparse.py:20 | trimming a set of characters from text padded on both sides with that set gives back the core, when the core neither starts nor ends with one of them |
| Text.Split | sparse.py:24-25 | `split` always returns at least one piece (its partners JoinSplit and SplitJoin pin the pieces down) |
| Text.JoinSplit | sparse.py:24-25 | the pieces of `split` contain no separator and join back to the original line |
| Text.SplitJoin | sparse.py:36 | splitting separator-free pieces joined by the separator gives those pieces back |
| Text.RemoveParensSpec | sparse.py:36 | removing parentheses leaves none, deletes a lone parenthesis outright, and leaves text that had none unchanged; with RemoveParensConcat this fixes the result of every text |
| Text.RemoveParensConcat | sparse.py:36 | removing parentheses distributes over concatenation |
| Text.ParseInt | sparse.py:37 | `int()` succeeds exactly when the text, with the whitespace it skips (tab to carriage return and space) trimmed from both ends, is an optional sign followed by one or more digits; a negative result comes only from a leading `-` (its partners ParseShow and ParseIntPadded fix the value) |
| Text.ParseShow | sparse.py:37 | `int()` reads back the decimal text of every integer, negative ones included |
| Text.ParseIntDigits | sparse.py:37 | whitespace, a sign and leading zeros around a run of digits read as the digits' decimal value with the sign applied |
| Text.ParseIntPadded | sparse.py:37 | every spelling of a natural number `n` that `int()` allows (surrounding whitespace, no sign, `+` or `-`, any leading zeros) reads as `n`, or `-n` after a `-` |
| Loader.Content | sparse.py:19-20 | no more lines are kept than were read; a single line is kept, stripped, exactly when it is not blank |
| Loader.ContentConcat | sparse.py:20 | the kept lines of two runs of lines are those of the first run followed by those of the second; with the single-line case this fixes which lines survive and their order |
| Loader.ContentStripped | sparse.py:20 | every kept line is non-blank and has nothing left to strip |
| Loader.ContentOfStripped | sparse.py:20 | already stripped, non-blank lines are kept unchanged |
| Loader.ParseEntryIgnoresParens | sparse.py:36-37 | a data line parses the same with its parentheses removed, so parentheses may appear anywhere in it (EntryRoundTrip is the partner for well-formed lines) |
| Loader.ParseEntriesConcat | sparse.py:33-43 | two runs of data lines parse together exactly when each run parses, and then give the first run's triples followed by the second's, so one bad line fails the whole file wherever it is |
| Loader.LastWinsExtend | sparse.py:41 | storing one more triple keeps "every key holds the value of its last triple" |
| Loader.Store | sparse.py:30-41 | the stored map holds exactly the keys of the triples, each with the value of the last triple for that key |
| Loader.AcceptsByEntries | sparse.py:23-43 | the line-by-line acceptance condition equals the same condition read through the parsed entries |
| Loader.StoreWellFormed | sparse.py:38-41 | triples that pass the upper-bound test give a well-formed matrix |
| Loader.Parse | sparse.py:15-45 | format error exactly unless there are two integer headers and every data line is a triple within the upper bounds; otherwise the headers' dimensions and the last-wins map of the triples |
| Loader.HeaderValue | sparse.py:24-27 | a header has a value only when it contains `=` (its partner HeaderRoundTrip reads back `name=<n>` as `n`) |
| Loader.HeaderRoundTrip | sparse.py:24-25 | a header `name=<n>` reads back as `n` |
| Loader.HeaderValueOf | sparse.py:24-25 | a header reads as `int()` of the text after its first `=`, up to a second `=` when there is one; the name and anything after a second `=` are ignored |
| Loader.SplitThree | sparse.py:36 | three comma-free fields joined by commas split back into exactly those fields |
| Loader.ParseEntryOf | sparse.py:36-37 | a line whose text without parentheses is three comma-free fields parses exactly when all three are integers, to the triple of their values |
| Loader.ParseEntryFields | sparse.py:36-37 | a line parses only when its text without parentheses is three comma-free fields joined by commas, so with ParseEntryOf this fixes the result of every line |
| Loader.EntryRoundTrip | sparse.py:36-37 | a line `(row,col,value)` reads back as that triple |
| Loader.FormatStripped | sparse.py:20 | every formatted line survives the stripping and blank-line filter unchanged |
| Loader.FormatDataEntries | sparse.py:33-37 | the data lines of formatted text parse back to the triples |
| Loader.ParseFormat | sparse.py:15-45 | loading the formatted text of dimensions and triples gives those dimensions and the last-wins map of the triples when every triple passes the upper-bound test, and a format error otherwise |
| Loader.StoreInBounds | sparse.py:38-41 | the loaded matrix has non-negative keys exactly when no triple has a negative row or column |
| Loader.ParseAcceptsNegativeRow | sparse.py:38 | a file with the data line `(-1,0,5)` in a 2 x 2 matrix is accepted, and the result has a negative key |
| Loader.ParseChecked | sparse.py:38-39 | the loader with lower bounds also checked: it agrees with `Parse` except that it rejects negative coordinates, and what it accepts has non-negative keys |

## Left out

- Opening and reading the file (sparse.py:15-17) is not modelled. The loader receives the list of lines already read.
- The `matrix_path` branch of the constructor (sparse.py:6-8) is not modelled separately. It is `Parse` applied to the file's lines.
- `load_matrix`, `main` and the module's entry point (sparse.py:125-169) are not modelled. They are console input and output around the modelled operations.
- The `scipy` import (sparse.py:1) is never used by the class.
- Error messages are not modelled. Only the kind of error is kept.
- `ValueError` is split into `DimensionError` (the operators) and `FormatError` (the loader). This separates the two sources of the one Python exception.
- Python's `int()` also accepts `_` between digits and non-ASCII digits, and both `str.strip()` and `int()` also treat non-ASCII spaces as whitespace. The model accepts only ASCII signs, digits and whitespace. Among ASCII characters, `str.strip()` removes tab to carriage return, the information separators 0x1C-0x1F and space, while `int()` skips only tab to carriage return and space. The model keeps the two sets apart (`IsSpace` and `IsIntSpace`).
- Text.ParseInt: accepts decimal text of any length. CPython 3.11 and later (and the 3.7-3.10 security releases) raise `ValueError` for decimal text of more than 4300 digits. The loader reports that as a format error (sparse.py:24-27, 36-43), which the model does not reproduce. The limit is an interpreter setting, not part of the program.
- Operators.Add, Operators.Subtract, Operators.Multiply: these require well-formed operands. That is the class invariant every construction path establishes. Under it, the `IndexError` that `set_element` could raise inside an operator is unreachable.
- Operators.Multiply: the cell-by-cell product sum is stated only when the left operand has no negative key, and for every cell only when both operands have none. A negative column index in the left operand pairs with a negative row of the right operand, which `Dot` does not sum over.
- Dense.ToDense: when two keys reach the same cell through negative indexing, which one wins depends on dictionary order. The contract therefore promises only "one of them".
- The order in which the operators visit stored keys is not modelled. The keys are visited in an arbitrary order, and the contracts hold for every order.

## Findings

| source | as written | input that shows it | evidently intended | confidence | as-written member | corrected member |
|---|---|---|---|---|---|---|
| sparse.py:38 | a data line is rejected only when `row >= rows or col >= cols`, so negative coordinates are stored | the lines `rows=2`, `cols=2`, `(-1,0,5)` load as a 2 x 2 matrix with the key `(-1, 0)`; `to_dense` then writes 5 into the last row | coordinates within `0 <= row < rows` and `0 <= col < cols`, as the bounds error message says | not executed | Loader.ParseAcceptsNegativeRow | Loader.ParseChecked |
