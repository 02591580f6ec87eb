/** Positional numerals as produced by `Number.prototype.toString(radix)` for integers. */
module Numerals {

  /** The digit for value `d`, from the alphabet "0123456789abcdef". */
  function DigitChar(d: nat): (c: char)
    requires d < 16
  {
    if d < 10 then ('0' as int + d) as char else ('a' as int + d - 10) as char
  }

  /** `c` is a digit of the given radix, in the lower-case alphabet `toString` uses. */
  predicate IsDigit(c: char, radix: nat)
    requires 2 <= radix <= 16
  {
    ('0' <= c <= '9' && (c as int - '0' as int) < radix)
    || ('a' <= c <= 'f' && (c as int - 'a' as int + 10) < radix)
  }

  function DigitValue(c: char, radix: nat): (d: nat)
    requires 2 <= radix <= 16
    requires IsDigit(c, radix)
    ensures d < radix && DigitChar(d) == c
    ensures forall e :: 0 <= e < radix && DigitChar(e) == c ==> e == d
  {
    if '0' <= c <= '9' then c as int - '0' as int else c as int - 'a' as int + 10
  }

  /** The value of a digit string, most significant digit first. */
  function FromDigits(s: string, radix: nat): nat
    requires 2 <= radix <= 16
    requires forall i :: 0 <= i < |s| ==> IsDigit(s[i], radix)
    decreases |s|
  {
    if s == [] then 0
    else
      var init := s[..|s| - 1];
      assert forall i :: 0 <= i < |init| ==> init[i] == s[i];
      var high := FromDigits(init, radix);
      var low := DigitValue(s[|s| - 1], radix);
      assert high * radix >= 0 by {
        MulNonNegative(high, radix);
      }
      high * radix + low
  }

  lemma MulNonNegative(a: nat, b: nat)
    ensures a * b >= 0
  {
  }

  lemma DivMod(n: nat, radix: nat)
    requires 2 <= radix
    ensures n == (n / radix) * radix + n % radix && 0 <= n % radix < radix
    ensures n >= radix ==> 1 <= n / radix < n
  {
  }

  /** `n.toString(radix)` for a non-negative integer: no leading zeros, "0" for zero. */
  function ToDigits(n: nat, radix: nat): (r: string)
    requires 2 <= radix <= 16
    ensures |r| >= 1
    ensures forall i :: 0 <= i < |r| ==> IsDigit(r[i], radix)
    ensures r[0] == '0' <==> n == 0
    ensures n == 0 ==> r == "0"
    decreases n
  {
    if n < radix then [DigitChar(n)]
    else
      DivMod(n, radix);
      ToDigits(n / radix, radix) + [DigitChar(n % radix)]
  }

  /** Reading the rendered digits back gives the number: the rendering loses nothing. */
  lemma {:induction false} FromToDigits(n: nat, radix: nat)
    requires 2 <= radix <= 16
    ensures FromDigits(ToDigits(n, radix), radix) == n
    decreases n
  {
    var r := ToDigits(n, radix);
    DivMod(n, radix);
    if n >= radix {
      var q := n / radix;
      var front := ToDigits(q, radix);
      FromToDigits(q, radix);
      assert r == front + [DigitChar(n % radix)];
      assert r[..|r| - 1] == front;
      assert DigitValue(r[|r| - 1], radix) == n % radix;
      calc {
        FromDigits(r, radix);
        FromDigits(front, radix) * radix + n % radix;
        q * radix + n % radix;
      }
    }
  }

  /** A digit string has no leading zero when it starts with '0' only as the numeral "0". */
  predicate Canonical(s: string) {
    s != [] && (s[0] == '0' ==> s == "0")
  }

  /** A leading digit other than '0' makes the value positive. */
  lemma {:induction false} LeadingNonZero(s: string, radix: nat)
    requires 2 <= radix <= 16
    requires forall i :: 0 <= i < |s| ==> IsDigit(s[i], radix)
    requires s != [] && s[0] != '0'
    ensures FromDigits(s, radix) >= 1
    decreases |s|
  {
    var init := s[..|s| - 1];
    assert FromDigits(s, radix) == FromDigits(init, radix) * radix + DigitValue(s[|s| - 1], radix);
    if |s| == 1 {
      assert DigitChar(0) == '0';
    } else {
      assert init[0] == s[0];
      LeadingNonZero(init, radix);
      MulAtLeast(FromDigits(init, radix), radix);
    }
  }

  /** `toString(radix)` is the only canonical numeral of a value: any other digit text differs in value or has a leading zero. */
  lemma {:induction false} CanonicalDigitsUnique(s: string, radix: nat)
    requires 2 <= radix <= 16
    requires forall i :: 0 <= i < |s| ==> IsDigit(s[i], radix)
    requires Canonical(s)
    ensures s == ToDigits(FromDigits(s, radix), radix)
    decreases |s|
  {
    var n := FromDigits(s, radix);
    var last := s[|s| - 1];
    var init := s[..|s| - 1];
    assert n == FromDigits(init, radix) * radix + DigitValue(last, radix);
    if |s| == 1 {
      assert init == [];
      assert ToDigits(n, radix) == [DigitChar(n)];
    } else {
      assert init[0] == s[0] && s[0] != '0';
      LeadingNonZero(init, radix);
      assert Canonical(init);
      CanonicalDigitsUnique(init, radix);
      var q := FromDigits(init, radix);
      DivMod(n, radix);
      assert n >= radix by {
        MulAtLeast(q, radix);
      }
      assert n / radix == q && n % radix == DigitValue(last, radix) by {
        DivModUnique(n, radix, q, DigitValue(last, radix));
      }
      assert ToDigits(n, radix) == ToDigits(q, radix) + [DigitChar(DigitValue(last, radix))];
      assert s == init + [last];
    }
  }

  lemma DivModUnique(n: nat, radix: nat, q: nat, d: nat)
    requires 2 <= radix && d < radix && n == q * radix + d
    ensures n / radix == q && n % radix == d
  {
    var q0 := n / radix;
    var d0 := n % radix;
    assert q0 * radix + d0 == q * radix + d;
    assert (q0 - q) * radix == d - d0 by {
      assert q0 * radix - q * radix == (q0 - q) * radix;
    }
    if q0 > q {
      MulAtLeast(q0 - q, radix);
    } else if q > q0 {
      MulAtLeast(q - q0, radix);
    }
  }

  lemma MulAtLeast(k: int, r: nat)
    requires k >= 1
    ensures k * r >= r
  {
    assert k * r == (k - 1) * r + r;
    MulNonNegative(k - 1, r);
  }

  /** Lower-case hexadecimal, as `n.toString(16)`. */
  function Hex(n: nat): (r: string)
    ensures forall i :: 0 <= i < |r| ==> IsDigit(r[i], 16)
    ensures FromDigits(r, 16) == n
    ensures Canonical(r)
  {
    FromToDigits(n, 16);
    ToDigits(n, 16)
  }

  /** `toString(16)` is the one canonical hex numeral of its value. */
  lemma HexUnique(s: string, n: nat)
    requires forall i :: 0 <= i < |s| ==> IsDigit(s[i], 16)
    requires Canonical(s) && FromDigits(s, 16) == n
    ensures s == Hex(n)
  {
    CanonicalDigitsUnique(s, 16);
  }

  /** `String(n)` for an integer: decimal digits with a leading '-' when negative. */
  function Decimal(n: int): (r: string)
    ensures r != []
    ensures n < 0 <==> r[0] == '-'
    ensures n < 0 ==> Canonical(r[1..]) && r[1] != '0'
    ensures n >= 0 ==> Canonical(r)
  {
    if n < 0 then "-" + ToDigits(-n, 10) else ToDigits(n, 10)
  }

  /** Reads back a string produced by `Decimal`. */
  function ParseDecimal(s: string): (r: int)
    requires s != []
    requires forall i :: (if s[0] == '-' then 1 else 0) <= i < |s| ==> IsDigit(s[i], 10)
  {
    if s[0] == '-' then 0 - FromDigits(s[1..], 10) as int else FromDigits(s, 10)
  }

  /** The decimal rendering is exact: parsing it back yields the original integer. */
  lemma {:induction false} DecimalRoundTrip(n: int)
    ensures forall i :: (if Decimal(n)[0] == '-' then 1 else 0) <= i < |Decimal(n)| ==> IsDigit(Decimal(n)[i], 10)
    ensures ParseDecimal(Decimal(n)) == n
  {
    var s := Decimal(n);
    if n < 0 {
      var d := ToDigits(-n, 10);
      FromToDigits(-n, 10);
      assert s[1..] == d;
      assert forall i :: 1 <= i < |s| ==> s[i] == d[i - 1];
    } else {
      FromToDigits(n, 10);
      assert IsDigit(s[0], 10);
    }
  }
}
