/** Text order as SQLite's default BINARY collation applies it in ORDER BY:
    character by character by code point, a proper prefix sorting first.
    (For UTF-8 text, byte order and code-point order coincide.) */
module Collation {

  /** `a` sorts before or together with `b`. */
  predicate Le(a: string, b: string)
    decreases |a|
  {
    a == [] || (b != [] && (a[0] < b[0] || (a[0] == b[0] && Le(a[1..], b[1..]))))
  }

  lemma {:induction false} LeReflexive(a: string)
    ensures Le(a, a)
    decreases |a|
  {
    if a != [] {
      LeReflexive(a[1..]);
    }
  }

  lemma {:induction false} LeTotal(a: string, b: string)
    ensures Le(a, b) || Le(b, a)
    decreases |a|
  {
    if a != [] && b != [] && a[0] == b[0] {
      LeTotal(a[1..], b[1..]);
    }
  }

  lemma {:induction false} LeAntisymmetric(a: string, b: string)
    requires Le(a, b) && Le(b, a)
    ensures a == b
    decreases |a|
  {
    if a != [] && b != [] {
      LeAntisymmetric(a[1..], b[1..]);
      assert a == [a[0]] + a[1..] && b == [b[0]] + b[1..];
    }
  }

  lemma {:induction false} LeTransitive(a: string, b: string, c: string)
    requires Le(a, b) && Le(b, c)
    ensures Le(a, c)
    decreases |a|
  {
    if a != [] && b != [] && c != [] && a[0] == b[0] && b[0] == c[0] {
      LeTransitive(a[1..], b[1..], c[1..]);
    }
  }

  /** Comparing two texts that start with prefixes of equal length: the
      prefixes decide unless they are equal, and then the rest decides. */
  lemma {:induction false} LeAppend(x: string, y: string, x': string, y': string)
    requires |x| == |x'|
    ensures x == x' ==> (Le(x + y, x' + y') <==> Le(y, y'))
    ensures x != x' ==> (Le(x + y, x' + y') <==> Le(x, x'))
    decreases |x|
  {
    if x != [] {
      assert (x + y)[0] == x[0] && (x' + y')[0] == x'[0];
      assert (x + y)[1..] == x[1..] + y && (x' + y')[1..] == x'[1..] + y';
      LeAppend(x[1..], y, x'[1..], y');
      if x[0] == x'[0] {
        assert Le(x + y, x' + y') == Le(x[1..] + y, x'[1..] + y');
        assert x == x' <==> x[1..] == x'[1..] by {
          assert x == [x[0]] + x[1..] && x' == [x'[0]] + x'[1..];
        }
      }
    } else {
      assert x + y == y && x' + y' == y';
    }
  }

  // ---- `yyyy-MM-dd` text sorts in calendar order ----

  predicate IsDigit(c: char) {
    '0' <= c <= '9'
  }

  predicate AllDigits(s: string) {
    forall i :: 0 <= i < |s| ==> IsDigit(s[i])
  }

  function Pow10(n: nat): (r: nat)
    ensures r >= 1
  {
    if n == 0 then 1 else 10 * Pow10(n - 1)
  }

  /** The value of a string of decimal digits, most significant first. */
  function Numeral(s: string): (r: nat)
    requires AllDigits(s)
    ensures r < Pow10(|s|)
  {
    if s == [] then 0
    else
      var d := (s[0] as int - '0' as int);
      var p := Pow10(|s| - 1);
      var rest := Numeral(s[1..]);
      DigitPlace(d, rest, p);
      d * p + rest
  }

  /** A digit times a place value, plus less than that place value, stays
      below the next place value. */
  lemma DigitPlace(d: int, r: nat, p: nat)
    requires 0 <= d <= 9 && r < p
    ensures 0 <= d * p + r < 10 * p
  {
    assert 0 <= d * p <= 9 * p;
  }

  /** For digit strings of one length, text order is numeric order. */
  lemma {:induction false} DigitsOrder(a: string, b: string)
    requires |a| == |b| && AllDigits(a) && AllDigits(b)
    ensures Le(a, b) <==> Numeral(a) <= Numeral(b)
    decreases |a|
  {
    if a != [] {
      var da, db := a[0] as int - '0' as int, b[0] as int - '0' as int;
      var p := Pow10(|a| - 1);
      var ra, rb := Numeral(a[1..]), Numeral(b[1..]);
      assert Numeral(a) == da * p + ra && Numeral(b) == db * p + rb;
      if da == db {
        DigitsOrder(a[1..], b[1..]);
      } else if da < db {
        LeadingDigitDecides(da, ra, db, rb, p);
      } else {
        LeadingDigitDecides(db, rb, da, ra, p);
      }
    }
  }

  /** A smaller leading digit makes a smaller number, whatever follows. */
  lemma LeadingDigitDecides(d: int, r: nat, d': int, r': nat, p: nat)
    requires d < d' && r < p
    ensures d * p + r < d' * p + r'
  {
    assert d * p + p == (d + 1) * p <= d' * p;
  }

  /** Digit strings of one length are equal exactly when their values are. */
  lemma DigitsEqual(a: string, b: string)
    requires |a| == |b| && AllDigits(a) && AllDigits(b)
    ensures a == b <==> Numeral(a) == Numeral(b)
  {
    DigitsOrder(a, b);
    DigitsOrder(b, a);
    if Numeral(a) == Numeral(b) {
      LeAntisymmetric(a, b);
    }
  }

  /** A date as the edit dialog formats it: four, two and two digits
      separated by '-'. */
  predicate IsIsoDate(s: string) {
    |s| == 10 && s[4] == '-' && s[7] == '-' &&
    AllDigits(s[..4]) && AllDigits(s[5..7]) && AllDigits(s[8..])
  }

  function Year(s: string): nat requires IsIsoDate(s) { Numeral(s[..4]) }
  function Month(s: string): nat requires IsIsoDate(s) { Numeral(s[5..7]) }
  function Day(s: string): nat requires IsIsoDate(s) { Numeral(s[8..]) }

  /** Calendar order on (year, month, day). */
  predicate OnOrBefore(a: string, b: string)
    requires IsIsoDate(a) && IsIsoDate(b)
  {
    Year(a) < Year(b) ||
    (Year(a) == Year(b) && (Month(a) < Month(b) || (Month(a) == Month(b) && Day(a) <= Day(b))))
  }

  /** Cutting both texts after their first `n` characters: the heads decide
      unless they are equal, and then the tails decide. */
  lemma SplitAt(a: string, b: string, n: nat)
    requires n <= |a| && n <= |b|
    ensures Le(a, b) <==> if a[..n] == b[..n] then Le(a[n..], b[n..]) else Le(a[..n], b[..n])
  {
    assert a == a[..n] + a[n..] && b == b[..n] + b[n..];
    LeAppend(a[..n], a[n..], b[..n], b[n..]);
  }

  /** Sorting `yyyy-MM-dd` text puts dates in calendar order. */
  lemma DateOrder(a: string, b: string)
    requires IsIsoDate(a) && IsIsoDate(b)
    ensures Le(a, b) <==> OnOrBefore(a, b)
  {
    var ya, yb, ma, mb, da, db := a[..4], b[..4], a[5..7], b[5..7], a[8..], b[8..];
    var afterYear := Le(a[5..], b[5..]);
    var afterMonth := Le(a[8..], b[8..]);
    assert Le(a, b) <==> if ya == yb then afterYear else Le(ya, yb) by {
      SplitAt(a, b, 4);
      assert a[4..][1..] == a[5..] && b[4..][1..] == b[5..];
    }
    assert afterYear <==> if ma == mb then afterMonth else Le(ma, mb) by {
      SplitAt(a[5..], b[5..], 2);
      assert a[5..][..2] == ma && b[5..][..2] == mb;
      assert a[5..][2..][1..] == a[8..] && b[5..][2..][1..] == b[8..];
    }
    DigitsOrder(ya, yb);
    DigitsEqual(ya, yb);
    DigitsOrder(ma, mb);
    DigitsEqual(ma, mb);
    DigitsOrder(da, db);
  }
}
