/** What a number token and the digits of a parameter name are worth, by the positional system. */
module ExprNumbers {
  import opened Common
  import opened ExprOps
  import opened ExprLexer
  import opened ExprMachine

  predicate AreDigits(s: string) {
    forall i :: 0 <= i < |s| ==> '0' <= s[i] <= '9'
  }

  function Digit(c: char): int {
    c as int - '0' as int
  }

  // ---------------------------------------------------------------- any number type

  /** `n` applications of `f`. */
  function Iterate<N>(f: N -> N, n: nat, x: N): N {
    if n == 0 then x else f(Iterate(f, n - 1, x))
  }

  /** The digits shifted in from the left. */
  function Shifted<N>(s: string, ar: Arith<N>): N {
    if |s| == 0 then ar.zero else ar.shift(Shifted(Front(s), ar), Digit(Last(s)))
  }

  lemma {:induction false} IterateInner<N>(f: N -> N, n: nat, x: N)
    ensures Iterate(f, n, f(x)) == Iterate(f, n + 1, x)
  {
    if n > 0 { IterateInner(f, n - 1, x); }
  }

  lemma {:induction false} ScaleIterates<N>(num: N, frac: nat, ar: Arith<N>)
    ensures Scale(num, frac, ar) == Iterate(ar.tenth, if frac > 1 then frac - 1 else 0, num)
    decreases frac
  {
    if frac > 1 {
      ScaleIterates(ar.tenth(num), frac - 1, ar);
      IterateInner(ar.tenth, frac - 2, num);
    }
  }

  lemma ShiftedSnoc<N>(done: string, d: char, ar: Arith<N>)
    ensures Shifted(done + [d], ar) == ar.shift(Shifted(done, ar), Digit(d))
  {
    assert Front(done + [d]) == done;
  }

  /** The rest of a number whose first part `done` has been read and has a point before its last digits. */
  lemma {:induction false} FractionRead<N>(s: string, done: string, frac: nat, ar: Arith<N>)
    requires AreDigits(s) && 0 < frac && |done| + |s| > 0
    ensures ParseDigits(s, Shifted(done, ar), frac, |done|, ar)
         == Some(Iterate(ar.tenth, frac - 1 + |s|, Shifted(done + s, ar)))
    decreases |s|
  {
    if |s| == 0 {
      assert done + s == done;
      ScaleIterates(Shifted(done, ar), frac, ar);
    } else {
      assert done + s == done + [s[0]] + s[1..];
      ShiftedSnoc(done, s[0], ar);
      FractionRead(s[1..], done + [s[0]], frac + 1, ar);
    }
  }

  lemma {:induction false} WholeRead<N>(s: string, rest: string, done: string, ar: Arith<N>)
    requires AreDigits(s)
    ensures ParseDigits(s + rest, Shifted(done, ar), 0, |done|, ar)
         == ParseDigits(rest, Shifted(done + s, ar), 0, |done + s|, ar)
    decreases |s|
  {
    if |s| == 0 {
      assert s + rest == rest && done + s == done;
    } else {
      assert (s + rest)[1..] == s[1..] + rest;
      assert done + s == done + [s[0]] + s[1..];
      ShiftedSnoc(done, s[0], ar);
      WholeRead(s[1..], rest, done + [s[0]], ar);
    }
  }

  /** A number of digits alone is its digits shifted in, and a fraction of n digits is scaled by a tenth n times. */
  lemma NumberIs<N>(whole: string, fraction: string, ar: Arith<N>)
    requires AreDigits(whole) && AreDigits(fraction) && |whole| > 0
    ensures ParseNumber(whole, ar) == Some(Shifted(whole, ar))
    ensures ParseNumber(whole + "." + fraction, ar)
         == Some(Iterate(ar.tenth, |fraction|, Shifted(whole + fraction, ar)))
  {
    hide ParseDigits, Iterate, Scale;
    assert whole + [] == whole && [] + whole == whole && Shifted([], ar) == ar.zero;
    WholeRead(whole, [], [], ar);
    NothingLeft(Shifted(whole, ar), |whole|, ar);
    var rest := "." + fraction;
    assert whole + "." + fraction == whole + rest;
    WholeRead(whole, rest, [], ar);
    PointRead(fraction, Shifted(whole, ar), |whole|, ar);
    FractionRead(fraction, whole, 1, ar);
  }

  lemma NothingLeft<N>(num: N, digits: nat, ar: Arith<N>)
    requires digits > 0
    ensures ParseDigits([], num, 0, digits, ar) == Some(num)
  {
  }

  lemma PointRead<N>(s: string, num: N, digits: nat, ar: Arith<N>)
    ensures ParseDigits("." + s, num, 0, digits, ar) == ParseDigits(s, num, 1, digits, ar)
  {
    assert ("." + s)[1..] == s;
  }

  /** A second point makes a token no number. */
  lemma {:induction false} SecondPoint<N>(s: string, num: N, frac: nat, digits: nat, ar: Arith<N>)
    requires frac > 0 && !AreDigits(s)
    ensures ParseDigits(s, num, frac, digits, ar).None?
    decreases |s|
  {
    if IsDigit(s[0]) {
      assert !AreDigits(s[1..]);
      SecondPoint(s[1..], ar.shift(num, Digit(s[0])), frac + 1, digits + 1, ar);
    }
  }

  lemma TwoPoints<N>(whole: string, rest: string, ar: Arith<N>)
    requires AreDigits(whole) && !AreDigits(rest)
    ensures ParseNumber(whole + "." + rest, ar).None?
  {
    var tail := "." + rest;
    assert whole + "." + rest == whole + tail && tail[1..] == rest && [] + whole == whole;
    WholeRead(whole, tail, [], ar);
    SecondPoint(rest, Shifted(whole, ar), 1, |whole|, ar);
  }

  // ---------------------------------------------------------------- the real numbers

  const REALS := Arith(0.0, (x: real, d: int) => x * 10.0 + d as real, (x: real) => x / 10.0)

  /** A numeral without a point. */
  function Whole(s: string): int {
    if |s| == 0 then 0 else 10 * Whole(Front(s)) + Digit(Last(s))
  }

  /** The digits behind the point, the first of them worth tenths. */
  function Fraction(s: string): real {
    if |s| == 0 then 0.0 else (Digit(s[0]) as real + Fraction(s[1..])) / 10.0
  }

  lemma {:induction false} ShiftedIsWhole(s: string)
    ensures Shifted(s, REALS) == Whole(s) as real
  {
    if |s| > 0 { ShiftedIsWhole(Front(s)); }
  }

  lemma {:induction false} FractionIs(whole: string, fraction: string)
    ensures Iterate(REALS.tenth, |fraction|, Shifted(whole + fraction, REALS))
         == Shifted(whole, REALS) + Fraction(fraction)
    decreases |fraction|
  {
    if |fraction| == 0 {
      assert whole + fraction == whole;
    } else {
      var d := fraction[0];
      assert whole + fraction == whole + [d] + fraction[1..];
      FractionIs(whole + [d], fraction[1..]);
      ShiftedSnoc(whole, d, REALS);
    }
  }

  /** Over the real numbers a token means what it says: the whole part and the fraction by the positional system. */
  lemma DecimalValue(whole: string, fraction: string)
    requires AreDigits(whole) && AreDigits(fraction) && |whole| > 0
    ensures ParseNumber(whole, REALS) == Some(Whole(whole) as real)
    ensures ParseNumber(whole + "." + fraction, REALS) == Some(Whole(whole) as real + Fraction(fraction))
  {
    NumberIs(whole, fraction, REALS);
    FractionIs(whole, fraction);
    ShiftedIsWhole(whole);
  }

  // ---------------------------------------------------------------- parameter names

  /** A parameter is named `$` and its position as a decimal numeral without leading zeros. */
  lemma {:induction false} ParamNumeral(k: nat)
    requires k > 0
    ensures var s := ParamName(k); s[0] == '$' && AreDigits(s[1..]) && Whole(s[1..]) == k && s[1] != '0'
  {
    DecimalIs(k);
    assert ParamName(k)[1..] == Decimal(k);
  }

  lemma {:induction false} DecimalIs(k: nat)
    ensures var s := Decimal(k); |s| > 0 && AreDigits(s) && Whole(s) == k && (k > 0 ==> s[0] != '0')
    decreases k
  {
    var s := Decimal(k);
    if k >= 10 {
      DecimalIs(k / 10);
      assert Front(s) == Decimal(k / 10);
    } else {
      assert Front(s) == [];
    }
  }
}
