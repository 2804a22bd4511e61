/** Character-level text helpers that the converter relies on: Python's
    `str(int)` for the job index, `int(str)` for the frame thickness entry,
    `sep.join(...)` and `str.split(sep)`. */
module Text {

  datatype Option<+T> = None | Some(value: T)

  predicate IsDigit(c: char) {
    '0' <= c <= '9'
  }

  predicate AllDigits(s: string) {
    forall i :: 0 <= i < |s| ==> IsDigit(s[i])
  }

  function DigitChar(d: nat): (c: char)
    requires d < 10
    ensures IsDigit(c) && c as int - '0' as int == d
  {
    ['0', '1', '2', '3', '4', '5', '6', '7', '8', '9'][d]
  }

  function DigitValue(c: char): nat
    requires IsDigit(c)
  {
    c as int - '0' as int
  }

  /** Python's `str(n)` for a non-negative integer: the shortest decimal
      numeral, without sign and without leading zeros. */
  function Decimal(n: nat): (r: string)
    ensures |r| >= 1 && AllDigits(r)
    ensures r[0] == '0' ==> n == 0
    ensures n < 10 <==> |r| == 1
  {
    if n < 10 then [DigitChar(n)] else Decimal(n / 10) + [DigitChar(n % 10)]
  }

  /** The value of a string of decimal digits, most significant first. */
  function DigitsValue(s: string): nat
    requires AllDigits(s)
  {
    if s == [] then 0 else DigitsValue(s[..|s| - 1]) * 10 + DigitValue(s[|s| - 1])
  }

  /** A non-empty run of ASCII decimal digits (leading zeros allowed, as in
      Python's `int`). */
  function ParseNat(s: string): (r: Option<nat>)
    ensures r.Some? <==> |s| >= 1 && AllDigits(s)
  {
    if |s| >= 1 && AllDigits(s) then Some(DigitsValue(s)) else None
  }

  predicate IsSign(c: char) {
    c == '-' || c == '+'
  }

  /** The texts `int` accepts here: an optional sign, then at least one digit. */
  predicate IsNumeral(s: string) {
    if |s| >= 1 && IsSign(s[0]) then |s| >= 2 && AllDigits(s[1..]) else |s| >= 1 && AllDigits(s)
  }

  /** Python's `int(s)` on an optional sign followed by decimal digits;
      every other text is refused (the `ValueError` path). */
  function ParseInt(s: string): (r: Option<int>)
    ensures r.Some? <==> IsNumeral(s)
    ensures r.Some? && IsDigit(s[0]) ==> r.value == DigitsValue(s)
    ensures r.Some? && s[0] == '+' ==> r.value == DigitsValue(s[1..])
    ensures r.Some? && s[0] == '-' ==> r.value == -(DigitsValue(s[1..]) as int)
  {
    if |s| >= 1 && s[0] == '-' then
      match ParseNat(s[1..])
      case Some(v) => Some(-(v as int))
      case None => None
    else if |s| >= 1 && s[0] == '+' then
      match ParseNat(s[1..])
      case Some(v) => Some(v)
      case None => None
    else
      match ParseNat(s)
      case Some(v) => Some(v)
      case None => None
  }

  lemma {:induction false} DecimalValue(n: nat)
    ensures DigitsValue(Decimal(n)) == n
  {
    if n >= 10 {
      var d := Decimal(n);
      assert d[..|d| - 1] == Decimal(n / 10);
      DecimalValue(n / 10);
    }
  }

  /** Reading back the numeral that `Decimal` writes gives the number. */
  lemma DecimalRoundTrip(n: nat)
    ensures ParseNat(Decimal(n)) == Some(n)
    ensures ParseInt(Decimal(n)) == Some(n)
    ensures ParseInt("-" + Decimal(n)) == Some(-(n as int))
  {
    DecimalValue(n);
    assert ("-" + Decimal(n))[1..] == Decimal(n);
  }

  /** Distinct numbers have distinct numerals. */
  lemma DecimalInjective(a: nat, b: nat)
    ensures Decimal(a) == Decimal(b) <==> a == b
  {
    DecimalRoundTrip(a);
    DecimalRoundTrip(b);
  }

  /** Python's `sep.join(xs)` for a one-character separator. */
  function JoinWith(sep: char, xs: seq<string>): (r: string)
    ensures |xs| == 1 ==> r == xs[0]
    ensures xs == [] ==> r == ""
  {
    if |xs| == 0 then ""
    else if |xs| == 1 then xs[0]
    else xs[0] + [sep] + JoinWith(sep, xs[1..])
  }

  /** Python's `s.split(sep)`: always at least one piece, the pieces never
      contain the separator. */
  function SplitOn(sep: char, s: string): (r: seq<string>)
    ensures |r| >= 1
  {
    if s == [] then [""]
    else if s[0] == sep then [""] + SplitOn(sep, s[1..])
    else
      var rest := SplitOn(sep, s[1..]);
      [[s[0]] + rest[0]] + rest[1..]
  }

  lemma {:induction false} SplitWithout(sep: char, s: string)
    requires sep !in s
    ensures SplitOn(sep, s) == [s]
  {
    if s != [] {
      SplitWithout(sep, s[1..]);
      assert [s[0]] + s[1..] == s;
    }
  }

  /** One step of `SplitOn` on a non-empty text. */
  lemma SplitCons(sep: char, c: char, t: string)
    ensures SplitOn(sep, [c] + t) ==
      if c == sep then [""] + SplitOn(sep, t)
      else [[c] + SplitOn(sep, t)[0]] + SplitOn(sep, t)[1..]
  {
    var s := [c] + t;
    assert s[0] == c && s[1..] == t;
  }

  /** Splitting at one separator splits the two sides independently. */
  lemma {:induction false} SplitAppend(sep: char, a: string, b: string)
    ensures SplitOn(sep, a + [sep] + b) == SplitOn(sep, a) + SplitOn(sep, b)
  {
    if a == [] {
      assert a + [sep] + b == [sep] + b;
      SplitCons(sep, sep, b);
    } else {
      var c, t := a[0], a[1..] + [sep] + b;
      assert a + [sep] + b == [c] + t;
      assert a == [c] + a[1..];
      SplitAppend(sep, a[1..], b);
      var A, B := SplitOn(sep, a[1..]), SplitOn(sep, b);
      assert SplitOn(sep, t) == A + B;
      SplitCons(sep, c, t);
      SplitCons(sep, c, a[1..]);
      assert SplitOn(sep, a + [sep] + b) == SplitOn(sep, [c] + t);
      assert SplitOn(sep, a) == SplitOn(sep, [c] + a[1..]);
      if c == sep {
        AppendAssoc([""], A, B);
      } else {
        HeadOfAppend(A, B);
        AppendAssoc([[c] + A[0]], A[1..], B);
      }
    }
  }

  lemma AppendAssoc<T>(x: seq<T>, y: seq<T>, z: seq<T>)
    ensures x + (y + z) == (x + y) + z
  {
  }

  /** The head and tail of `x + y` when `x` is not empty. */
  lemma HeadOfAppend<T>(x: seq<T>, y: seq<T>)
    requires |x| >= 1
    ensures (x + y)[0] == x[0] && (x + y)[1..] == x[1..] + y
  {
  }

  /** `s.split(sep)` undoes `sep.join(xs)` when no piece holds `sep`. */
  lemma {:induction false} SplitJoin(sep: char, xs: seq<string>)
    requires |xs| >= 1
    requires forall i :: 0 <= i < |xs| ==> sep !in xs[i]
    ensures SplitOn(sep, JoinWith(sep, xs)) == xs
  {
    if |xs| == 1 {
      SplitWithout(sep, xs[0]);
    } else {
      SplitJoin(sep, xs[1..]);
      SplitAppend(sep, xs[0], JoinWith(sep, xs[1..]));
      SplitWithout(sep, xs[0]);
      assert [xs[0]] + xs[1..] == xs;
    }
  }
}
