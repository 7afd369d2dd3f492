/** The text loader: turns the lines of a matrix file into the declared
    dimensions and the stored triples, or a format error. Reading the file
    itself is outside the model; the loader receives the lines already read. */
module Loader {
  import opened Results
  import opened Sparse
  import opened Text

  /** One data line, `(row, col, value)`. */
  datatype Entry = Entry(row: int, col: int, value: int) {
    function Key(): Key {
      (row, col)
    }
  }

  /** The lines mapped through `norm`, those that `norm` turns into the empty
      text dropped, in their original order. */
  function Kept(norm: string -> string, lines: seq<string>): (c: seq<string>)
    ensures |c| <= |lines|
    decreases |lines|
  {
    if |lines| == 0 then []
    else
      var s := norm(lines[0]);
      (if s == "" then [] else [s]) + Kept(norm, lines[1..])
  }

  /** `Kept` works element by element, so it distributes over concatenation. */
  lemma {:induction false} KeptConcat(norm: string -> string, x: seq<string>, y: seq<string>)
    ensures Kept(norm, x + y) == Kept(norm, x) + Kept(norm, y)
    decreases |x|
  {
    if |x| == 0 {
      assert x + y == y;
    } else {
      assert (x + y)[0] == x[0] && (x + y)[1..] == x[1..] + y;
      KeptConcat(norm, x[1..], y);
    }
  }

  /** With an idempotent `norm`, every kept line is non-empty and a fixed
      point of `norm`. */
  lemma {:induction false} KeptNormal(norm: string -> string, lines: seq<string>)
    requires forall s :: norm(norm(s)) == norm(s)
    ensures forall t | 0 <= t < |Kept(norm, lines)| :: Kept(norm, lines)[t] != "" && norm(Kept(norm, lines)[t]) == Kept(norm, lines)[t]
    decreases |lines|
  {
    if |lines| > 0 {
      KeptNormal(norm, lines[1..]);
    }
  }

  /** Non-empty fixed points of `norm` are all kept, unchanged. */
  lemma {:induction false} KeptOfNormal(norm: string -> string, lines: seq<string>)
    requires forall t | 0 <= t < |lines| :: lines[t] != "" && norm(lines[t]) == lines[t]
    ensures Kept(norm, lines) == lines
    decreases |lines|
  {
    if |lines| > 0 {
      KeptOfNormal(norm, lines[1..]);
      assert [lines[0]] + lines[1..] == lines;
    }
  }

  /** The lines with surrounding whitespace stripped and blank lines dropped,
      in their original order. */
  function Content(lines: seq<string>): (c: seq<string>)
    ensures |c| <= |lines|
    ensures |lines| == 1 ==> c == if Strip(lines[0]) == "" then [] else [Strip(lines[0])]
  {
    Kept(Strip, lines)
  }

  /** Every kept line is non-blank and has nothing left to strip. */
  lemma ContentStripped(lines: seq<string>)
    ensures forall t | 0 <= t < |Content(lines)| :: Content(lines)[t] != "" && Strip(Content(lines)[t]) == Content(lines)[t]
  {
    forall s ensures Strip(Strip(s)) == Strip(s) {
      StripIdempotent(s);
    }
    KeptNormal(Strip, lines);
  }

  /** Filtering works line by line: the kept lines of two consecutive runs of
      lines are the kept lines of the first run followed by those of the
      second. */
  lemma ContentConcat(x: seq<string>, y: seq<string>)
    ensures Content(x + y) == Content(x) + Content(y)
  {
    KeptConcat(Strip, x, y);
  }

  /** Lines that are already stripped and non-blank pass through unchanged. */
  lemma ContentOfStripped(lines: seq<string>)
    requires forall t | 0 <= t < |lines| :: lines[t] != "" && Strip(lines[t]) == lines[t]
    ensures Content(lines) == lines
  {
    KeptOfNormal(Strip, lines);
  }

  /** The integer written after the first `=` of a header line, up to any
      second `=`; absent when there is no `=` or that text is not an integer.
      The name before the `=` is not looked at. */
  function HeaderValue(line: string): (r: Option<int>)
    ensures r.Some? ==> '=' in line
  {
    var parts := Split(line, '=');
    if |parts| < 2 then None
    else
      JoinSplit(line, '=');
      assert line == parts[0] + ['='] + Join(parts[1..], '=');
      assert line[|parts[0]|] == '=';
      ParseInt(parts[1])
  }

  /** A header reads as the integer between its first and its second `=`,
      or up to the end when there is no second `=`, whatever the name
      before the first `=` is and whatever follows the second. */
  lemma HeaderValueOf(name: string, v: string, w: string)
    requires '=' !in name && '=' !in v
    ensures HeaderValue(name + "=" + v) == ParseInt(v)
    ensures HeaderValue(name + "=" + v + "=" + w) == ParseInt(v)
  {
    SplitNone(v, '=');
    SplitCons(name, '=', v);
    assert name + "=" + v == name + ['='] + v;
    var tail := v + ['='] + w;
    SplitCons(v, '=', w);
    SplitCons(name, '=', tail);
    assert name + "=" + v + "=" + w == name + ['='] + tail;
  }

  /** Three fields joined by commas. */
  function CommaJoined(f0: string, f1: string, f2: string): string {
    f0 + "," + f1 + "," + f2
  }

  /** Three comma-free fields joined by commas split back into those fields. */
  lemma SplitThree(f0: string, f1: string, f2: string)
    requires ',' !in f0 && ',' !in f1 && ',' !in f2
    ensures Split(CommaJoined(f0, f1, f2), ',') == [f0, f1, f2]
  {
    var tail := f1 + [','] + f2;
    SplitNone(f2, ',');
    SplitCons(f1, ',', f2);
    SplitCons(f0, ',', tail);
    assert CommaJoined(f0, f1, f2) == f0 + [','] + tail;
  }

  /** A data line with every parenthesis removed must split on `,` into
      exactly three integers. */
  function ParseEntry(line: string): Option<Entry> {
    var fields := Split(RemoveParens(line), ',');
    if |fields| != 3 then None
    else
      var row, col, value := ParseInt(fields[0]), ParseInt(fields[1]), ParseInt(fields[2]);
      if row.Some? && col.Some? && value.Some? then Some(Entry(row.value, col.value, value.value))
      else None
  }

  /** A data line whose text without parentheses is three comma-free fields
      parses exactly when each field is an integer, to the triple of those
      integers. */
  lemma ParseEntryOf(line: string, f0: string, f1: string, f2: string)
    requires ',' !in f0 && ',' !in f1 && ',' !in f2
    requires RemoveParens(line) == CommaJoined(f0, f1, f2)
    ensures ParseEntry(line) ==
              if ParseInt(f0).Some? && ParseInt(f1).Some? && ParseInt(f2).Some?
              then Some(Entry(ParseInt(f0).value, ParseInt(f1).value, ParseInt(f2).value))
              else None
  {
    SplitThree(f0, f1, f2);
  }

  /** Only a line whose text without parentheses is three comma-free fields
      can parse. */
  lemma ParseEntryFields(line: string)
    ensures ParseEntry(line).Some? ==>
              exists f0, f1, f2 | ',' !in f0 && ',' !in f1 && ',' !in f2 ::
                RemoveParens(line) == CommaJoined(f0, f1, f2)
  {
    var body := RemoveParens(line);
    var parts := Split(body, ',');
    if |parts| == 3 {
      JoinSplit(body, ',');
      assert ',' !in parts[0] && ',' !in parts[1] && ',' !in parts[2];
      var tail := parts[1..];
      assert tail == [parts[1], parts[2]] && tail[1..] == [parts[2]];
      assert Join(tail, ',') == parts[1] + [','] + parts[2];
      assert Join(parts, ',') == parts[0] + [','] + Join(tail, ',');
      assert body == CommaJoined(parts[0], parts[1], parts[2]);
    }
  }

  /** Parentheses anywhere in a data line do not change how it parses: the
      line with its parentheses removed parses the same. */
  lemma ParseEntryIgnoresParens(line: string)
    ensures ParseEntry(RemoveParens(line)) == ParseEntry(line)
  {
    var body := RemoveParens(line);
    RemoveParensSpec(line);
    assert '(' !in body && ')' !in body by {
      forall i | 0 <= i < |body| ensures body[i] != '(' && body[i] != ')' {
      }
    }
    RemoveParensSpec(body);
  }

  /** Applies `f` to every element, failing as a whole when it fails on any
      one element. */
  function AllSome<A, B>(f: A -> Option<B>, xs: seq<A>): (r: Option<seq<B>>)
    ensures r.Some? <==> forall t | 0 <= t < |xs| :: f(xs[t]).Some?
    ensures r.Some? ==> |r.value| == |xs|
    ensures r.Some? ==> forall t | 0 <= t < |xs| :: f(xs[t]) == Some(r.value[t])
  {
    if forall t | 0 <= t < |xs| :: f(xs[t]).Some? then
      Some(seq(|xs|, t requires 0 <= t < |xs| => f(xs[t]).value))
    else None
  }

  /** Elements that map one by one to `v` map as a whole to `v`. */
  lemma AllSomeOf<A, B>(f: A -> Option<B>, xs: seq<A>, v: seq<B>)
    requires |v| == |xs|
    requires forall t | 0 <= t < |xs| :: f(xs[t]) == Some(v[t])
    ensures AllSome(f, xs) == Some(v)
  {
    var r := AllSome(f, xs);
    forall t | 0 <= t < |v| ensures r.value[t] == v[t] {
      assert f(xs[t]) == Some(r.value[t]);
    }
    assert r.value == v;
  }

  /** `AllSome` on two runs one after the other succeeds exactly when it
      succeeds on both, and then gives the first run's results followed by the
      second's. */
  lemma AllSomeConcat<A, B>(f: A -> Option<B>, x: seq<A>, y: seq<A>)
    ensures AllSome(f, x + y).Some? <==> AllSome(f, x).Some? && AllSome(f, y).Some?
    ensures AllSome(f, x + y).Some? ==> AllSome(f, x + y).value == AllSome(f, x).value + AllSome(f, y).value
  {
    var xy := x + y;
    if AllSome(f, x).Some? && AllSome(f, y).Some? {
      var v := AllSome(f, x).value + AllSome(f, y).value;
      forall t | 0 <= t < |xy| ensures f(xy[t]) == Some(v[t]) {
        if t < |x| {
          assert xy[t] == x[t];
        } else {
          assert xy[t] == y[t - |x|];
        }
      }
      AllSomeOf(f, xy, v);
    } else if AllSome(f, x).None? {
      var t :| 0 <= t < |x| && f(x[t]).None?;
      assert xy[t] == x[t];
    } else {
      var t :| 0 <= t < |y| && f(y[t]).None?;
      assert xy[|x| + t] == y[t];
    }
  }

  /** Parses every data line, failing as a whole when any one line fails. */
  function ParseEntries(lines: seq<string>): (r: Option<seq<Entry>>)
    ensures r.Some? <==> forall t | 0 <= t < |lines| :: ParseEntry(lines[t]).Some?
    ensures r.Some? ==> |r.value| == |lines|
    ensures r.Some? ==> forall t | 0 <= t < |lines| :: ParseEntry(lines[t]) == Some(r.value[t])
  {
    AllSome(ParseEntry, lines)
  }

  /** Parsing two runs of data lines one after the other succeeds exactly when
      both runs parse, and then gives the first run's triples followed by the
      second's: a line's fate does not depend on its neighbours. */
  lemma ParseEntriesConcat(x: seq<string>, y: seq<string>)
    ensures ParseEntries(x + y).Some? <==> ParseEntries(x).Some? && ParseEntries(y).Some?
    ensures ParseEntries(x + y).Some? ==> ParseEntries(x + y).value == ParseEntries(x).value + ParseEntries(y).value
  {
    AllSomeConcat(ParseEntry, x, y);
  }

  /** Entry `t` is the last one in `entries` with its key. */
  predicate LastWith(entries: seq<Entry>, t: int)
    requires 0 <= t < |entries|
  {
    forall u | t < u < |entries| :: entries[u].Key() != entries[t].Key()
  }

  /** `m` holds exactly the keys of `entries`, each with the value of the
      last entry that has that key. */
  predicate LastWins(entries: seq<Entry>, m: map<Key, int>) {
    && (forall t | 0 <= t < |entries| :: entries[t].Key() in m)
    && (forall key | key in m :: exists t | 0 <= t < |entries| :: entries[t].Key() == key)
    && (forall t | 0 <= t < |entries| && LastWith(entries, t) :: m[entries[t].Key()] == entries[t].value)
  }

  /** Writing one more entry into a map that is `LastWins` for the earlier
      entries gives a map that is `LastWins` for all of them. */
  lemma LastWinsExtend(entries: seq<Entry>, m: map<Key, int>)
    requires |entries| > 0
    requires LastWins(entries[..|entries| - 1], m)
    ensures LastWins(entries, m[entries[|entries| - 1].Key() := entries[|entries| - 1].value])
  {
    var n := |entries| - 1;
    var m' := m[entries[n].Key() := entries[n].value];
    ExtendCovers(entries, m, m');
    ExtendFrom(entries, m, m');
    ExtendValues(entries, m, m');
  }

  lemma ExtendCovers(entries: seq<Entry>, m: map<Key, int>, m': map<Key, int>)
    requires |entries| > 0
    requires LastWins(entries[..|entries| - 1], m)
    requires m' == m[entries[|entries| - 1].Key() := entries[|entries| - 1].value]
    ensures forall t | 0 <= t < |entries| :: entries[t].Key() in m'
  {
    var n := |entries| - 1;
    forall t | 0 <= t < n ensures entries[t].Key() in m {
      assert entries[t] == entries[..n][t];
    }
  }

  lemma ExtendFrom(entries: seq<Entry>, m: map<Key, int>, m': map<Key, int>)
    requires |entries| > 0
    requires LastWins(entries[..|entries| - 1], m)
    requires m' == m[entries[|entries| - 1].Key() := entries[|entries| - 1].value]
    ensures forall key | key in m' :: exists t | 0 <= t < |entries| :: entries[t].Key() == key
  {
    var n := |entries| - 1;
    var init, last := entries[..n], entries[n];
    forall key | key in m' ensures exists t | 0 <= t < |entries| :: entries[t].Key() == key {
      if key != last.Key() {
        var t :| 0 <= t < |init| && init[t].Key() == key;
        assert entries[t] == init[t];
      } else {
        assert entries[n].Key() == key;
      }
    }
  }

  lemma ExtendValues(entries: seq<Entry>, m: map<Key, int>, m': map<Key, int>)
    requires |entries| > 0
    requires LastWins(entries[..|entries| - 1], m)
    requires m' == m[entries[|entries| - 1].Key() := entries[|entries| - 1].value]
    requires forall t | 0 <= t < |entries| :: entries[t].Key() in m'
    ensures forall t | 0 <= t < |entries| && LastWith(entries, t) :: m'[entries[t].Key()] == entries[t].value
  {
    var n := |entries| - 1;
    var init, last := entries[..n], entries[n];
    forall t | 0 <= t < |entries| && LastWith(entries, t) ensures m'[entries[t].Key()] == entries[t].value {
      if t < n {
        assert entries[t] == init[t];
        assert entries[t].Key() != last.Key();
        assert LastWith(init, t);
      }
    }
  }

  /** The entries written in order into an empty map, so that a later entry
      with the same key overwrites an earlier one. */
  function Store(entries: seq<Entry>): (m: map<Key, int>)
    ensures LastWins(entries, m)
    decreases |entries|
  {
    if |entries| == 0 then map[]
    else
      var n := |entries| - 1;
      var m := Store(entries[..n]);
      LastWinsExtend(entries, m);
      m[entries[n].Key() := entries[n].value]
  }

  /** The bounds test a data line must pass: only upper bounds are checked. */
  predicate FitsUpper(e: Entry, rows: int, cols: int) {
    e.row < rows && e.col < cols
  }

  /** The triples of the data lines (every non-blank line after the two
      headers), in file order; absent when some data line is not a triple. */
  function DataEntries(lines: seq<string>): (r: Option<seq<Entry>>)
    ensures r.Some? ==> |Content(lines)| >= 2 && |r.value| == |Content(lines)| - 2
    ensures r.Some? ==> forall t | 2 <= t < |Content(lines)| :: ParseEntry(Content(lines)[t]) == Some(r.value[t - 2])
    ensures r.Some? <==> |Content(lines)| >= 2 && forall t | 2 <= t < |Content(lines)| :: ParseEntry(Content(lines)[t]).Some?
  {
    var c := Content(lines);
    if |c| < 2 then None
    else
      assert forall t | 2 <= t < |c| :: c[t] == c[2..][t - 2];
      assert forall t | 0 <= t < |c| - 2 :: c[2..][t] == c[t + 2];
      ParseEntries(c[2..])
  }

  /** What the loader accepts: at least two non-blank lines, two integer
      headers, and data lines that each parse to a triple within the upper
      bounds the headers declare. */
  predicate Accepts(lines: seq<string>) {
    var c := Content(lines);
    && |c| >= 2
    && HeaderValue(c[0]).Some?
    && HeaderValue(c[1]).Some?
    && (forall t | 2 <= t < |c| :: ParseEntry(c[t]).Some?)
    && (forall t | 2 <= t < |c| :: FitsUpper(ParseEntry(c[t]).value, HeaderValue(c[0]).value, HeaderValue(c[1]).value))
  }

  /** `Accepts` read through the parsed data entries rather than line by line. */
  lemma AcceptsByEntries(lines: seq<string>)
    ensures Accepts(lines) <==>
              var c := Content(lines);
              && |c| >= 2
              && HeaderValue(c[0]).Some? && HeaderValue(c[1]).Some?
              && DataEntries(lines).Some?
              && forall t | 0 <= t < |DataEntries(lines).value| ::
                   FitsUpper(DataEntries(lines).value[t], HeaderValue(c[0]).value, HeaderValue(c[1]).value)
  {
    var c := Content(lines);
    var d := DataEntries(lines);
    if |c| < 2 || HeaderValue(c[0]).None? || HeaderValue(c[1]).None? {
    } else if d.None? {
      assert !(forall t | 2 <= t < |c| :: ParseEntry(c[t]).Some?);
      assert !Accepts(lines);
    } else {
      var rows, cols := HeaderValue(c[0]).value, HeaderValue(c[1]).value;
      if forall t | 0 <= t < |d.value| :: FitsUpper(d.value[t], rows, cols) {
        forall t | 2 <= t < |c| ensures FitsUpper(ParseEntry(c[t]).value, rows, cols) {
          assert ParseEntry(c[t]) == Some(d.value[t - 2]);
        }
        assert Accepts(lines);
      } else {
        var t :| 0 <= t < |d.value| && !FitsUpper(d.value[t], rows, cols);
        assert ParseEntry(c[t + 2]) == Some(d.value[t]);
        assert !Accepts(lines);
      }
    }
  }

  /** The stored map holds only keys that pass the upper-bound test. */
  lemma StoreWellFormed(entries: seq<Entry>, rows: int, cols: int)
    requires forall t | 0 <= t < |entries| :: FitsUpper(entries[t], rows, cols)
    ensures WellFormed(SparseMatrix(rows, cols, Store(entries)))
  {
    var m := Store(entries);
    forall key | key in m ensures key.0 < rows && key.1 < cols {
      var t :| 0 <= t < |entries| && entries[t].Key() == key;
      assert FitsUpper(entries[t], rows, cols);
    }
  }

  /** `_load_from_file` after the file has been read: the declared dimensions
      and every triple, the last of duplicate keys winning; explicit zero
      values are stored as written. */
  function Parse(lines: seq<string>): (r: Result<SparseMatrix>)
    ensures r.Err? ==> r.error == FormatError
    ensures r.Ok? <==> Accepts(lines)
    ensures r.Ok? ==> r.value.rows == HeaderValue(Content(lines)[0]).value
    ensures r.Ok? ==> r.value.cols == HeaderValue(Content(lines)[1]).value
    ensures r.Ok? ==> WellFormed(r.value)
    ensures r.Ok? ==> DataEntries(lines).Some?
    ensures r.Ok? ==> LastWins(DataEntries(lines).value, r.value.elements)
  {
    AcceptsByEntries(lines);
    var c := Content(lines);
    if |c| < 2 then Err(FormatError)
    else
      var rows, cols := HeaderValue(c[0]), HeaderValue(c[1]);
      if rows.None? || cols.None? then Err(FormatError)
      else
        var entries := DataEntries(lines);
        if entries.None? then Err(FormatError)
        else if exists t | 0 <= t < |entries.value| :: !FitsUpper(entries.value[t], rows.value, cols.value) then
          Err(FormatError)
        else
          StoreWellFormed(entries.value, rows.value, cols.value);
          Ok(SparseMatrix(rows.value, cols.value, Store(entries.value)))
  }

  /** The loader with the lower bounds checked as well: a data line whose row
      or column is negative is rejected just like one past the upper bound. */
  function ParseChecked(lines: seq<string>): (r: Result<SparseMatrix>)
    ensures r.Err? ==> r.error == FormatError
    ensures r.Ok? <==> Parse(lines).Ok? && NonNegativeKeys(DataEntries(lines).value)
    ensures r.Ok? ==> r == Parse(lines)
    ensures r.Ok? ==> InBounds(r.value)
  {
    match Parse(lines)
    case Err(e) => Err(e)
    case Ok(m) =>
      StoreInBounds(DataEntries(lines).value, m);
      if InBounds(m) then Ok(m) else Err(FormatError)
  }

  /** No entry has a negative row or column. */
  predicate NonNegativeKeys(entries: seq<Entry>) {
    forall t | 0 <= t < |entries| :: 0 <= entries[t].row && 0 <= entries[t].col
  }

  /** A well-formed matrix whose keys are exactly those of `entries` is in
      bounds exactly when no entry has a negative coordinate. */
  lemma StoreInBounds(entries: seq<Entry>, m: SparseMatrix)
    requires WellFormed(m) && LastWins(entries, m.elements)
    ensures InBounds(m) <==> NonNegativeKeys(entries)
  {
    if InBounds(m) {
      forall t | 0 <= t < |entries| ensures 0 <= entries[t].row && 0 <= entries[t].col {
        assert entries[t].Key() in m.elements;
      }
    }
    if NonNegativeKeys(entries) {
      forall key | key in m.elements ensures 0 <= key.0 && 0 <= key.1 {
        var t :| 0 <= t < |entries| && entries[t].Key() == key;
      }
    }
  }

  /** A data line in the file format: `(row,col,value)`. */
  function FormatEntry(e: Entry): string {
    "(" + Show(e.row) + "," + Show(e.col) + "," + Show(e.value) + ")"
  }

  /** A header line: `name=<n>`. */
  function Header(name: string, n: int): string {
    name + "=" + Show(n)
  }

  /** One data line per entry, in order. */
  function FormatEntries(entries: seq<Entry>): (lines: seq<string>)
    ensures |lines| == |entries|
    ensures forall t | 0 <= t < |entries| :: lines[t] == FormatEntry(entries[t])
  {
    seq(|entries|, t requires 0 <= t < |entries| => FormatEntry(entries[t]))
  }

  /** The file format: a `rows=` header, a `cols=` header, one line per entry. */
  function Format(rows: int, cols: int, entries: seq<Entry>): (lines: seq<string>)
    ensures |lines| == |entries| + 2
  {
    [Header("rows", rows), Header("cols", cols)] + FormatEntries(entries)
  }

  /** The decimal text of an integer holds only digits and `-`. */
  lemma ShowAvoids(n: int, ch: char)
    requires !IsDigit(ch) && ch != '-'
    ensures ch !in Show(n)
  {
    var s := Show(n);
    forall i | 0 <= i < |s| ensures s[i] != ch {
    }
  }

  /** A header line `name=<n>` with a name that starts with a non-space is
      non-blank and already stripped. */
  lemma HeaderStripped(name: string, n: int)
    requires name != "" && !IsSpace(name[0])
    ensures Header(name, n) != "" && Strip(Header(name, n)) == Header(name, n)
  {
    var line := Header(name, n);
    assert line[0] == name[0] && line[|line| - 1] == Show(n)[|Show(n)| - 1];
  }

  /** A header line `name=<n>` reads back as `n`. */
  lemma HeaderRoundTrip(name: string, n: int)
    requires '=' !in name
    ensures HeaderValue(Header(name, n)) == Some(n)
  {
    var parts := [name, Show(n)];
    ShowAvoids(n, '=');
    assert parts[1..] == [Show(n)];
    assert Join(parts, '=') == Header(name, n);
    SplitJoin(parts, '=');
    ParseShow(n);
  }

  /** The three fields of a data line, joined by commas. */
  function Fields(e: Entry): string {
    CommaJoined(Show(e.row), Show(e.col), Show(e.value))
  }

  /** A formatted data line is the fields wrapped in one pair of parentheses. */
  lemma RemoveParensOfFormat(e: Entry)
    ensures RemoveParens(FormatEntry(e)) == Fields(e)
  {
    var body := Fields(e);
    ShowAvoids(e.row, '('); ShowAvoids(e.col, '('); ShowAvoids(e.value, '(');
    ShowAvoids(e.row, ')'); ShowAvoids(e.col, ')'); ShowAvoids(e.value, ')');
    assert '(' !in body && ')' !in body;
    RemoveParensSpec(body);
    assert FormatEntry(e) == "(" + (body + ")");
    RemoveParensConcat("(", body + ")");
    RemoveParensConcat(body, ")");
    assert RemoveParens("(") == "";
    assert RemoveParens(")") == "";
  }

  /** The fields split back into the three decimal texts. */
  lemma SplitFields(e: Entry)
    ensures Split(Fields(e), ',') == [Show(e.row), Show(e.col), Show(e.value)]
  {
    ShowAvoids(e.row, ','); ShowAvoids(e.col, ','); ShowAvoids(e.value, ',');
    SplitThree(Show(e.row), Show(e.col), Show(e.value));
  }

  /** A formatted data line is non-blank and already stripped. */
  lemma EntryStripped(e: Entry)
    ensures FormatEntry(e) != "" && Strip(FormatEntry(e)) == FormatEntry(e)
  {
    var line := FormatEntry(e);
    assert line[0] == '(' && line[|line| - 1] == ')';
  }

  /** A formatted data line reads back as its entry. */
  lemma EntryRoundTrip(e: Entry)
    ensures ParseEntry(FormatEntry(e)) == Some(e)
  {
    RemoveParensOfFormat(e);
    SplitFields(e);
    ParseShow(e.row); ParseShow(e.col); ParseShow(e.value);
  }

  /** The lines of the format after the two headers are the entries' lines. */
  lemma FormatLine(rows: int, cols: int, entries: seq<Entry>, t: int)
    requires 2 <= t < |entries| + 2
    ensures Format(rows, cols, entries)[t] == FormatEntry(entries[t - 2])
  {
    var lines := Format(rows, cols, entries);
    assert lines[t] == lines[2..][t - 2];
  }

  /** Every formatted line is non-blank and already stripped. */
  lemma FormatStripped(rows: int, cols: int, entries: seq<Entry>)
    ensures forall t | 0 <= t < |Format(rows, cols, entries)| ::
              Format(rows, cols, entries)[t] != "" && Strip(Format(rows, cols, entries)[t]) == Format(rows, cols, entries)[t]
  {
    var lines := Format(rows, cols, entries);
    HeaderStripped("rows", rows);
    HeaderStripped("cols", cols);
    forall t | 0 <= t < |lines| ensures lines[t] != "" && Strip(lines[t]) == lines[t] {
      if t >= 2 {
        FormatLine(rows, cols, entries, t);
        EntryStripped(entries[t - 2]);
      }
    }
  }

  /** Formatted text has no blank lines and nothing to strip. */
  lemma FormatContent(rows: int, cols: int, entries: seq<Entry>)
    ensures Content(Format(rows, cols, entries)) == Format(rows, cols, entries)
  {
    FormatStripped(rows, cols, entries);
    ContentOfStripped(Format(rows, cols, entries));
  }

  /** Each formatted data line parses back to its entry. */
  lemma FormatLinesParse(rows: int, cols: int, entries: seq<Entry>)
    ensures forall t | 2 <= t < |Format(rows, cols, entries)| ::
              ParseEntry(Format(rows, cols, entries)[t]) == Some(entries[t - 2])
  {
    forall t | 2 <= t < |Format(rows, cols, entries)|
      ensures ParseEntry(Format(rows, cols, entries)[t]) == Some(entries[t - 2])
    {
      FormatLine(rows, cols, entries, t);
      EntryRoundTrip(entries[t - 2]);
    }
  }

  /** Stripped text whose data lines parse to `entries` has those data entries. */
  lemma DataEntriesOf(lines: seq<string>, entries: seq<Entry>)
    requires Content(lines) == lines && |lines| == |entries| + 2
    requires forall t | 2 <= t < |lines| :: ParseEntry(lines[t]) == Some(entries[t - 2])
    ensures DataEntries(lines) == Some(entries)
  {
    var d := DataEntries(lines);
    assert d.Some?;
    forall t | 0 <= t < |entries| ensures d.value[t] == entries[t] {
      assert ParseEntry(lines[t + 2]) == Some(d.value[t]);
    }
    assert d.value == entries;
  }

  /** The data lines of formatted text parse back to the entries. */
  lemma FormatDataEntries(rows: int, cols: int, entries: seq<Entry>)
    ensures DataEntries(Format(rows, cols, entries)) == Some(entries)
  {
    FormatLinesParse(rows, cols, entries);
    FormatContent(rows, cols, entries);
    DataEntriesOf(Format(rows, cols, entries), entries);
  }

  /** The two header lines of formatted text read back as the dimensions. */
  lemma FormatHeaders(rows: int, cols: int, entries: seq<Entry>)
    ensures HeaderValue(Format(rows, cols, entries)[0]) == Some(rows)
    ensures HeaderValue(Format(rows, cols, entries)[1]) == Some(cols)
  {
    assert '=' !in "rows" && '=' !in "cols";
    HeaderRoundTrip("rows", rows);
    HeaderRoundTrip("cols", cols);
  }

  /** What `Parse` returns, given what its headers and data lines read as. */
  lemma ParseOf(lines: seq<string>, rows: int, cols: int, entries: seq<Entry>)
    requires |Content(lines)| >= 2
    requires HeaderValue(Content(lines)[0]) == Some(rows)
    requires HeaderValue(Content(lines)[1]) == Some(cols)
    requires DataEntries(lines) == Some(entries)
    ensures Parse(lines) ==
              if forall t | 0 <= t < |entries| :: FitsUpper(entries[t], rows, cols)
              then Ok(SparseMatrix(rows, cols, Store(entries)))
              else Err(FormatError)
  {
  }

  /** Loading the formatted text of a matrix gives back its dimensions and
      entries exactly when every entry passes the upper-bound test, and a
      format error otherwise. */
  lemma ParseFormat(rows: int, cols: int, entries: seq<Entry>)
    ensures Parse(Format(rows, cols, entries)) ==
              if forall t | 0 <= t < |entries| :: FitsUpper(entries[t], rows, cols)
              then Ok(SparseMatrix(rows, cols, Store(entries)))
              else Err(FormatError)
  {
    FormatContent(rows, cols, entries);
    FormatDataEntries(rows, cols, entries);
    FormatHeaders(rows, cols, entries);
    ParseOf(Format(rows, cols, entries), rows, cols, entries);
  }

  /** As written, a data line with a negative row is accepted: the bounds
      test only looks at upper bounds. The checked loader rejects it. */
  lemma ParseAcceptsNegativeRow()
    ensures Parse(["rows=2", "cols=2", "(-1,0,5)"]).Ok?
    ensures !InBounds(Parse(["rows=2", "cols=2", "(-1,0,5)"]).value)
    ensures ParseChecked(["rows=2", "cols=2", "(-1,0,5)"]) == Err(FormatError)
  {
    var es := [Entry(-1, 0, 5)];
    assert ShowNat(1) == "1" && ShowNat(2) == "2" && ShowNat(0) == "0" && ShowNat(5) == "5";
    assert Show(2) == "2" && Show(-1) == "-1" && Show(0) == "0" && Show(5) == "5";
    assert Header("rows", 2) == "rows=2" && Header("cols", 2) == "cols=2";
    assert FormatEntry(es[0]) == "(-1,0,5)";
    var lines := Format(2, 2, es);
    assert lines[0] == "rows=2" && lines[1] == "cols=2" && lines[2] == "(-1,0,5)";
    assert lines == ["rows=2", "cols=2", "(-1,0,5)"];
    ParseFormat(2, 2, es);
    assert es[0].Key() in Store(es);
  }
}
