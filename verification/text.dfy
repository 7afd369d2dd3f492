/** The string operations the loader relies on: whitespace stripping, splitting
    on a separator, removing parentheses, and decimal integer conversion. */
module Text {
  import opened Results

  /** The ASCII whitespace `str.strip()` removes: tab, line feed, vertical
      tab, form feed, carriage return, the four information separators and
      space. */
  predicate IsSpace(ch: char) {
    var n := ch as int;
    n == 32 || 9 <= n <= 13 || 28 <= n <= 31
  }

  /** The whitespace `int()` skips around the digits of ASCII text: tab, line
      feed, vertical tab, form feed, carriage return and space, but not the
      information separators. */
  predicate IsIntSpace(ch: char) {
    var n := ch as int;
    n == 32 || 9 <= n <= 13
  }

  /** Drops leading characters that satisfy `sp`. */
  function TrimStart(sp: char -> bool, s: string): (r: string)
    ensures |r| <= |s| && r == s[|s| - |r|..]
    ensures forall i | 0 <= i < |s| - |r| :: sp(s[i])
    ensures |r| > 0 ==> !sp(r[0])
    decreases |s|
  {
    if |s| > 0 && sp(s[0]) then TrimStart(sp, s[1..]) else s
  }

  /** Drops trailing characters that satisfy `sp`. */
  function TrimEnd(sp: char -> bool, s: string): (r: string)
    ensures |r| <= |s| && r == s[..|r|]
    ensures forall i | |r| <= i < |s| :: sp(s[i])
    ensures |r| > 0 ==> !sp(r[|r| - 1])
    decreases |s|
  {
    if |s| > 0 && sp(s[|s| - 1]) then TrimEnd(sp, s[..|s| - 1]) else s
  }

  /** Drops characters that satisfy `sp` from both ends: the result neither
      starts nor ends with one, is empty exactly when every character of `s`
      is one, and is `s` itself when `s` has none at either end. */
  function Trim(sp: char -> bool, s: string): (r: string)
    ensures |r| > 0 ==> !sp(r[0]) && !sp(r[|r| - 1])
    ensures r == [] <==> forall i | 0 <= i < |s| :: sp(s[i])
    ensures |s| > 0 && !sp(s[0]) && !sp(s[|s| - 1]) ==> r == s
  {
    TrimEnd(sp, TrimStart(sp, s))
  }

  /** What `Trim` drops is a run at each end, all of it satisfying `sp`: the
      result is the slice in between. */
  lemma TrimSlice(sp: char -> bool, s: string)
    ensures exists a, b | 0 <= a <= b <= |s| ::
              && Trim(sp, s) == s[a..b]
              && (forall i | 0 <= i < a :: sp(s[i]))
              && (forall i | b <= i < |s| :: sp(s[i]))
  {
    var t := TrimStart(sp, s);
    var r := TrimEnd(sp, t);
    var a := |s| - |t|;
    var b := a + |r|;
    assert t == s[a..];
    forall i | b <= i < |s| ensures sp(s[i]) {
      assert s[i] == t[i - a];
    }
    assert r == s[a..b];
    assert Trim(sp, s) == r;
  }

  /** Text surrounded by runs of `sp` characters, and neither starting nor
      ending with one itself, trims to itself. */
  lemma {:induction false} TrimPadded(sp: char -> bool, pre: string, core: string, post: string)
    requires forall i | 0 <= i < |pre| :: sp(pre[i])
    requires forall i | 0 <= i < |post| :: sp(post[i])
    requires |core| > 0 && !sp(core[0]) && !sp(core[|core| - 1])
    ensures Trim(sp, pre + core + post) == core
  {
    var rest := core + post;
    var x := pre + rest;
    assert pre + core + post == x;
    assert rest[0] == core[0];
    TrimStartPadded(sp, pre, rest);
    TrimEndPadded(sp, core, post);
  }

  lemma {:induction false} TrimStartPadded(sp: char -> bool, pre: string, x: string)
    requires forall i | 0 <= i < |pre| :: sp(pre[i])
    requires |x| > 0 && !sp(x[0])
    ensures TrimStart(sp, pre + x) == x
    decreases |pre|
  {
    if |pre| > 0 {
      assert (pre + x)[1..] == pre[1..] + x;
      TrimStartPadded(sp, pre[1..], x);
    } else {
      assert pre + x == x;
    }
  }

  lemma {:induction false} TrimEndPadded(sp: char -> bool, x: string, post: string)
    requires forall i | 0 <= i < |post| :: sp(post[i])
    requires |x| > 0 && !sp(x[|x| - 1])
    ensures TrimEnd(sp, x + post) == x
    decreases |post|
  {
    if |post| > 0 {
      assert (x + post)[..|x + post| - 1] == x + post[..|post| - 1];
      TrimEndPadded(sp, x, post[..|post| - 1]);
    } else {
      assert x + post == x;
    }
  }

  /** `str.strip()`: the longest slice of `s` that neither starts nor ends
      with whitespace; empty exactly when `s` is all whitespace. */
  function Strip(s: string): (r: string)
    ensures |r| > 0 ==> !IsSpace(r[0]) && !IsSpace(r[|r| - 1])
    ensures r == [] <==> forall i | 0 <= i < |s| :: IsSpace(s[i])
    ensures |s| > 0 && !IsSpace(s[0]) && !IsSpace(s[|s| - 1]) ==> r == s
  {
    Trim(IsSpace, s)
  }

  /** `str.strip()` removes only a run of whitespace at each end. */
  lemma StripSlice(s: string)
    ensures exists a, b | 0 <= a <= b <= |s| ::
              && Strip(s) == s[a..b]
              && (forall i | 0 <= i < a :: IsSpace(s[i]))
              && (forall i | b <= i < |s| :: IsSpace(s[i]))
  {
    TrimSlice(IsSpace, s);
  }

  /** Stripping twice is stripping once. */
  lemma StripIdempotent(s: string)
    ensures Strip(Strip(s)) == Strip(s)
  {
  }

  /** Joins `parts` with `sep` between neighbours. */
  function Join(parts: seq<string>, sep: char): string
    decreases |parts|
  {
    if |parts| == 0 then ""
    else if |parts| == 1 then parts[0]
    else parts[0] + [sep] + Join(parts[1..], sep)
  }

  /** `s.split(sep)`: the pieces between occurrences of `sep`, always at least
      one. */
  function Split(s: string, sep: char): (parts: seq<string>)
    ensures |parts| >= 1
    decreases |s|
  {
    if |s| == 0 then [""]
    else
      var rest := Split(s[1..], sep);
      if s[0] == sep then [""] + rest
      else [[s[0]] + rest[0]] + rest[1..]
  }

  /** The pieces `Split` returns hold no separator, and joining them back with
      the separator gives the original text. */
  lemma {:induction false} JoinSplit(s: string, sep: char)
    ensures forall t | 0 <= t < |Split(s, sep)| :: sep !in Split(s, sep)[t]
    ensures Join(Split(s, sep), sep) == s
    decreases |s|
  {
    if |s| > 0 {
      var rest := Split(s[1..], sep);
      JoinSplit(s[1..], sep);
      var parts := Split(s, sep);
      if s[0] == sep {
        assert parts == [""] + rest && parts[1..] == rest;
      } else {
        assert parts == [[s[0]] + rest[0]] + rest[1..] && parts[1..] == rest[1..];
        if |rest| > 1 {
          assert Join(rest, sep) == rest[0] + [sep] + Join(rest[1..], sep);
        }
        forall t | 0 <= t < |parts| ensures sep !in parts[t] {
          if t > 0 {
            assert parts[t] == rest[t];
          }
        }
      }
    }
  }

  /** A piece without the separator followed by the separator starts a new piece. */
  lemma {:induction false} SplitCons(x: string, sep: char, y: string)
    requires sep !in x
    ensures Split(x + [sep] + y, sep) == [x] + Split(y, sep)
    decreases |x|
  {
    var s := x + [sep] + y;
    if |x| == 0 {
      assert s[1..] == y;
    } else {
      assert s[1..] == x[1..] + [sep] + y;
      SplitCons(x[1..], sep, y);
      assert [x[0]] + x[1..] == x;
    }
  }

  /** Text without the separator is a single piece. */
  lemma {:induction false} SplitNone(x: string, sep: char)
    requires sep !in x
    ensures Split(x, sep) == [x]
    decreases |x|
  {
    if |x| > 0 {
      SplitNone(x[1..], sep);
      assert [x[0]] + x[1..] == x;
    }
  }

  /** `Split` inverts `Join` for pieces that do not contain the separator. */
  lemma {:induction false} SplitJoin(parts: seq<string>, sep: char)
    requires |parts| >= 1
    requires forall t | 0 <= t < |parts| :: sep !in parts[t]
    ensures Split(Join(parts, sep), sep) == parts
    decreases |parts|
  {
    if |parts| == 1 {
      SplitNone(parts[0], sep);
    } else {
      SplitJoin(parts[1..], sep);
      SplitCons(parts[0], sep, Join(parts[1..], sep));
      assert [parts[0]] + parts[1..] == parts;
    }
  }

  /** `s.replace('(', '').replace(')', '')`: `s` with every parenthesis removed
      and every other character kept in order. */
  function RemoveParens(s: string): string
    decreases |s|
  {
    if |s| == 0 then ""
    else (if s[0] == '(' || s[0] == ')' then "" else [s[0]]) + RemoveParens(s[1..])
  }

  /** No parenthesis survives, and text without parentheses is unchanged. */
  lemma {:induction false} RemoveParensSpec(s: string)
    ensures forall i | 0 <= i < |RemoveParens(s)| :: RemoveParens(s)[i] != '(' && RemoveParens(s)[i] != ')'
    ensures '(' !in s && ')' !in s ==> RemoveParens(s) == s
    ensures |s| == 1 && (s[0] == '(' || s[0] == ')') ==> RemoveParens(s) == ""
    decreases |s|
  {
    if |s| > 0 {
      RemoveParensSpec(s[1..]);
      assert [s[0]] + s[1..] == s;
    }
  }

  /** Removing parentheses works piece by piece. */
  lemma {:induction false} RemoveParensConcat(x: string, y: string)
    ensures RemoveParens(x + y) == RemoveParens(x) + RemoveParens(y)
    decreases |x|
  {
    if |x| > 0 {
      var head := if x[0] == '(' || x[0] == ')' then "" else [x[0]];
      assert (x + y)[0] == x[0];
      assert (x + y)[1..] == x[1..] + y;
      RemoveParensConcat(x[1..], y);
      calc {
        RemoveParens(x + y);
        head + RemoveParens(x[1..] + y);
        head + (RemoveParens(x[1..]) + RemoveParens(y));
        (head + RemoveParens(x[1..])) + RemoveParens(y);
      }
    } else {
      assert x + y == y;
    }
  }

  predicate IsDigit(ch: char) {
    '0' <= ch <= '9'
  }

  predicate AllDigits(s: string) {
    forall i | 0 <= i < |s| :: IsDigit(s[i])
  }

  /** The value of a run of decimal digits, most significant first. */
  function DigitsValue(s: string): nat
    requires AllDigits(s)
    decreases |s|
  {
    if |s| == 0 then 0
    else DigitsValue(s[..|s| - 1]) * 10 + (s[|s| - 1] as int - '0' as int)
  }

  /** An optional sign followed by at least one decimal digit. */
  predicate IsNumeral(t: string) {
    var digits := if |t| > 0 && (t[0] == '-' || t[0] == '+') then t[1..] else t;
    |digits| > 0 && AllDigits(digits)
  }

  /** `int(s)` for decimal text: surrounding whitespace is ignored, then an
      optional sign and one or more digits are required. */
  function ParseInt(s: string): (r: Option<int>)
    ensures r.Some? <==> IsNumeral(Trim(IsIntSpace, s))
    ensures r.Some? && r.value < 0 ==> Trim(IsIntSpace, s)[0] == '-'
  {
    NumeralValue(Trim(IsIntSpace, s))
  }

  /** The value of a numeral: an optional sign followed by digits. */
  function NumeralValue(t: string): (r: Option<int>)
    ensures r.Some? <==> IsNumeral(t)
    ensures r.Some? && r.value < 0 ==> t[0] == '-'
  {
    if !IsNumeral(t) then None
    else if t[0] == '-' then Some(-(DigitsValue(t[1..]) as int))
    else if t[0] == '+' then Some(DigitsValue(t[1..]))
    else Some(DigitsValue(t))
  }

  /** Leading zeros do not change the value of a run of digits. */
  lemma {:induction false} DigitsValueLeadingZeros(zs: string, d: string)
    requires forall i | 0 <= i < |zs| :: zs[i] == '0'
    requires AllDigits(d)
    ensures AllDigits(zs + d) && DigitsValue(zs + d) == DigitsValue(d)
    decreases |zs| + |d|
  {
    var s := zs + d;
    if |d| > 0 {
      assert s[..|s| - 1] == zs + d[..|d| - 1];
      DigitsValueLeadingZeros(zs, d[..|d| - 1]);
    } else if |zs| > 0 {
      assert s == zs && s[..|s| - 1] == zs[..|zs| - 1] + d;
      DigitsValueLeadingZeros(zs[..|zs| - 1], d);
    }
  }

  /** The optional sign in front of a numeral. */
  datatype Sign = Unsigned | Plus | Minus

  function SignText(sg: Sign): string {
    match sg
    case Unsigned => ""
    case Plus => "+"
    case Minus => "-"
  }

  /** A magnitude with a sign applied. */
  function Signed(sg: Sign, v: nat): int {
    if sg == Minus then -(v as int) else v
  }

  /** A sign followed by digits reads as the digits' value, negated after a
      `-`. */
  lemma SignedValue(sg: Sign, digits: string)
    requires |digits| > 0 && AllDigits(digits)
    ensures NumeralValue(SignText(sg) + digits) == Some(Signed(sg, DigitsValue(digits)))
  {
    var t := SignText(sg) + digits;
    match sg
    case Unsigned =>
      assert t == digits;
    case Plus =>
      assert t[0] == '+' && t[1..] == digits;
    case Minus =>
      assert t[0] == '-' && t[1..] == digits;
  }

  /** `int()` reads padded text as the numeral it surrounds. */
  lemma ParseIntOfPadded(pre: string, core: string, post: string)
    requires forall i | 0 <= i < |pre| :: IsIntSpace(pre[i])
    requires forall i | 0 <= i < |post| :: IsIntSpace(post[i])
    requires |core| > 0 && !IsIntSpace(core[0]) && !IsIntSpace(core[|core| - 1])
    ensures ParseInt(pre + core + post) == NumeralValue(core)
  {
    TrimPadded(IsIntSpace, pre, core, post);
  }

  /** A sign followed by digits neither starts nor ends with whitespace. */
  lemma NumeralEnds(sg: Sign, digits: string)
    requires |digits| > 0 && AllDigits(digits)
    ensures var core := SignText(sg) + digits;
      |core| > 0 && !IsIntSpace(core[0]) && !IsIntSpace(core[|core| - 1])
  {
    var core := SignText(sg) + digits;
    assert core[|core| - 1] == digits[|digits| - 1];
    if sg == Unsigned {
      assert core[0] == digits[0];
    } else {
      assert core[0] == SignText(sg)[0];
    }
  }

  /** A sign, leading zeros and a run of digits form a numeral worth the
      digits' value, negated after a `-`. */
  lemma SignedZerosValue(sg: Sign, zs: string, d: string)
    requires forall i | 0 <= i < |zs| :: zs[i] == '0'
    requires |d| > 0 && AllDigits(d)
    ensures NumeralValue(SignText(sg) + (zs + d)) == Some(Signed(sg, DigitsValue(d)))
  {
    DigitsValueLeadingZeros(zs, d);
    SignedValue(sg, zs + d);
  }

  /** `int()` reads a sign, leading zeros and a run of digits, with
      whitespace around them, as the digits' value with the sign applied. */
  lemma ParseIntDigits(pre: string, sg: Sign, zs: string, d: string, post: string)
    requires forall i | 0 <= i < |pre| :: IsIntSpace(pre[i])
    requires forall i | 0 <= i < |post| :: IsIntSpace(post[i])
    requires forall i | 0 <= i < |zs| :: zs[i] == '0'
    requires |d| > 0 && AllDigits(d)
    ensures ParseInt(pre + SignText(sg) + zs + d + post) == Some(Signed(sg, DigitsValue(d)))
  {
    var core := SignText(sg) + (zs + d);
    SignedZerosValue(sg, zs, d);
    NumeralEnds(sg, zs + d);
    Regroup(pre, SignText(sg), zs, d, post);
    ParseIntOfPadded(pre, core, post);
  }

  lemma Regroup<T>(a: seq<T>, b: seq<T>, c: seq<T>, d: seq<T>, e: seq<T>)
    ensures a + b + c + d + e == a + (b + (c + d)) + e
  {
  }

  /** `int()` ignores surrounding whitespace, an explicit `+` and leading
      zeros: every spelling of a number reads as that number. */
  lemma ParseIntPadded(pre: string, sg: Sign, zs: string, n: nat, post: string)
    requires forall i | 0 <= i < |pre| :: IsIntSpace(pre[i])
    requires forall i | 0 <= i < |post| :: IsIntSpace(post[i])
    requires forall i | 0 <= i < |zs| :: zs[i] == '0'
    ensures ParseInt(pre + SignText(sg) + zs + ShowNat(n) + post) == Some(Signed(sg, n))
  {
    DigitsValueShowNat(n);
    ParseIntDigits(pre, sg, zs, ShowNat(n), post);
  }

  /** Decimal digits of a natural number, without leading zeros. */
  function ShowNat(n: nat): (s: string)
    ensures |s| > 0 && AllDigits(s)
    decreases n
  {
    if n < 10 then [('0' as int + n) as char]
    else ShowNat(n / 10) + [('0' as int + n % 10) as char]
  }

  /** Decimal text of an integer, with a leading `-` when negative. */
  function Show(n: int): (s: string)
    ensures |s| > 0 && IsDigit(s[|s| - 1])
    ensures IsDigit(s[0]) || s[0] == '-'
    ensures forall i | 0 <= i < |s| :: IsDigit(s[i]) || s[i] == '-'
  {
    if n < 0 then "-" + ShowNat(-n) else ShowNat(n)
  }

  lemma {:induction false} DigitsValueShowNat(n: nat)
    ensures DigitsValue(ShowNat(n)) == n
    decreases n
  {
    if n >= 10 {
      var s := ShowNat(n);
      assert s[..|s| - 1] == ShowNat(n / 10);
      DigitsValueShowNat(n / 10);
    }
  }

  /** Decimal text has no surrounding whitespace. */
  lemma ShowStripped(n: int)
    ensures Trim(IsIntSpace, Show(n)) == Show(n)
  {
    var s := Show(n);
    assert !IsIntSpace(s[0]) && !IsIntSpace(s[|s| - 1]);
  }

  /** The digits after an optional `-` read back as the magnitude. */
  lemma ShowValue(n: int)
    ensures IsNumeral(Show(n))
    ensures Show(n)[0] == '-' <==> n < 0
    ensures Show(n)[0] != '+'
    ensures n < 0 ==> DigitsValue(Show(n)[1..]) == -n
    ensures n >= 0 ==> DigitsValue(Show(n)) == n
  {
    var s := Show(n);
    if n < 0 {
      var d := ShowNat(-n);
      assert s == "-" + d && s[1..] == d;
      DigitsValueShowNat(-n);
    } else {
      assert s == ShowNat(n) && IsDigit(s[0]);
      DigitsValueShowNat(n);
    }
  }

  /** `ParseInt` reads back what `Show` writes. */
  lemma ParseShow(n: int)
    ensures ParseInt(Show(n)) == Some(n)
  {
    ShowStripped(n);
    ShowValue(n);
  }
}
