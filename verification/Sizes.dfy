// humanSize: a byte count as text, through the unit loop on int64, float64
// division and "%.1f".
module Sizes {
  import Decimal

  // ---------------------------------------------------------------------
  // Rounding
  // ---------------------------------------------------------------------

  // a / b to the nearest integer, ties to even: how Go prints "%.1f" in
  // tenths, and how it converts an integer to float64 in units of the last
  // place.
  function RoundHalfEven(a: nat, b: nat): nat
    requires b > 0
  {
    var q, r := a / b, a % b;
    if 2 * r < b || (2 * r == b && q % 2 == 0) then q else q + 1
  }

  const MANTISSA: nat := 0x20_0000_0000_0000  // 2^53

  // The unit in the last place of an integer as a float64.
  function Ulp(n: nat): (u: nat)
    ensures u >= 1
  {
    if n < MANTISSA then 1 else 2 * Ulp(n / 2)
  }

  // float64(n), which is an integer.
  function Float64(n: nat): nat {
    RoundHalfEven(n, Ulp(n)) * Ulp(n)
  }

  // float64(n)/float64(div) to one decimal digit, in tenths. The division is
  // exact: div is a power of two.
  function Tenths(n: nat, div: nat): nat
    requires div > 0
  {
    RoundHalfEven(10 * Float64(n), div)
  }

  lemma DivMod(a: nat, b: nat)
    requires b > 0
    ensures a == b * (a / b) + a % b && 0 <= a % b < b
  {
  }

  lemma OneMore(b: nat, p: nat, q: nat)
    ensures p > q ==> b * p >= b * q + b
  {
    if p > q {
      assert b * p >= b * (q + 1) == b * q + b;
    }
  }

  lemma DivUnique(a: nat, b: nat, q: nat, r: nat)
    requires a == q * b + r && r < b
    ensures a / b == q && a % b == r
  {
    DivMod(a, b);
    OneMore(b, a / b, q);
    OneMore(b, q, a / b);
    assert q * b == b * q;
  }

  // The rounded quotient is as close as can be.
  lemma RoundClose(a: nat, b: nat)
    requires b > 0
    ensures var k := RoundHalfEven(a, b) * b; 2 * k <= 2 * a + b && 2 * a <= 2 * k + b
  {
    var q := a / b;
    DivMod(a, b);
    assert b * q == q * b && (q + 1) * b == q * b + b;
  }

  // A tie goes to the even neighbour.
  lemma RoundTie(a: nat, b: nat)
    requires b > 0
    ensures 2 * a == 2 * (RoundHalfEven(a, b) * b) + b || 2 * (RoundHalfEven(a, b) * b) == 2 * a + b
            ==> RoundHalfEven(a, b) % 2 == 0
  {
    var q, r := a / b, a % b;
    DivMod(a, b);
    assert b * q == q * b && (q + 1) * b == q * b + b;
  }

  lemma QuotientMonotone(a: nat, c: nat, b: nat)
    requires b > 0 && a <= c
    ensures a / b <= c / b
  {
    DivMod(a, b);
    DivMod(c, b);
    OneMore(b, a / b, c / b);
  }

  lemma RoundMonotone(a: nat, c: nat, b: nat)
    requires b > 0 && a <= c
    ensures RoundHalfEven(a, b) <= RoundHalfEven(c, b)
  {
    QuotientMonotone(a, c, b);
    if a / b == c / b {
      DivMod(a, b);
      DivMod(c, b);
      assert a % b <= c % b;
    }
  }

  lemma RoundExact(k: nat, b: nat)
    requires b > 0
    ensures RoundHalfEven(k * b, b) == k
  {
    DivUnique(k * b, b, k, 0);
  }

  lemma {:induction false} UlpBounds(n: nat)
    ensures n < MANTISSA * Ulp(n) && (n >= MANTISSA ==> MANTISSA * Ulp(n) <= 2 * n)
    decreases n
  {
    if n < MANTISSA {
    } else if n / 2 < MANTISSA {
      assert Ulp(n) == 2 * Ulp(n / 2) == 2;
    } else {
      UlpBounds(n / 2);
      assert n == 2 * (n / 2) + n % 2;
      assert MANTISSA * Ulp(n) == 2 * (MANTISSA * Ulp(n / 2));
    }
  }

  lemma {:induction false} UlpDoubles(m: nat, n: nat)
    requires m <= n
    ensures Ulp(m) == Ulp(n) || 2 * Ulp(m) <= Ulp(n)
    decreases n
  {
    if n < MANTISSA {
    } else if m < MANTISSA {
      assert Ulp(m) == 1 && Ulp(n) == 2 * Ulp(n / 2) && Ulp(n / 2) >= 1;
    } else {
      UlpDoubles(m / 2, n / 2);
    }
  }

  lemma Scale(a: nat, b: nat, k: nat)
    ensures a <= b ==> a * k <= b * k
  {
  }

  // float64 keeps the order of integers.
  lemma Float64Monotone(m: nat, n: nat)
    requires m <= n
    ensures Float64(m) <= Float64(n)
  {
    hide RoundHalfEven, Ulp;
    var u, v := Ulp(m), Ulp(n);
    UlpDoubles(m, n);
    if u == v {
      RoundMonotone(m, n, u);
      Scale(RoundHalfEven(m, u), RoundHalfEven(n, u), u);
    } else {
      UlpBounds(m);
      RoundMonotone(m, MANTISSA * u, u);
      RoundExact(MANTISSA, u);
      Scale(RoundHalfEven(m, u), MANTISSA, u);
      UlpBounds(n);
      SmallUlp(n);
      var half := MANTISSA / 2;
      assert half * v <= n;
      RoundMonotone(half * v, n, v);
      RoundExact(half, v);
      Scale(half, RoundHalfEven(n, v), v);
      assert MANTISSA * u <= half * v;
    }
  }

  function Pow2(k: nat): (r: nat)
    ensures r >= 1
  {
    if k == 0 then 1 else 2 * Pow2(k - 1)
  }

  lemma {:induction false} UlpIsPower(n: nat) returns (e: nat)
    ensures Ulp(n) == Pow2(e)
    decreases n
  {
    if n < MANTISSA {
      e := 0;
    } else {
      var d := UlpIsPower(n / 2);
      e := d + 1;
    }
  }

  // float64(n) is the nearest number of at most 53 significant bits, the one
  // with the even last bit if there are two: IEEE 754, section 4.3.1.
  lemma Float64IsNearest(n: nat) returns (e: nat)
    ensures n < 0x20_0000_0000_0000 ==> e == 0
    ensures n >= 0x20_0000_0000_0000 ==> 0x10_0000_0000_0000 * Pow2(e) <= n
    ensures n < 0x20_0000_0000_0000 * Pow2(e)
    ensures exists m: nat ::
              && Float64(n) == m * Pow2(e) && 2 * Float64(n) <= 2 * n + Pow2(e) && 2 * n <= 2 * Float64(n) + Pow2(e)
              && (2 * Float64(n) == 2 * n + Pow2(e) || 2 * n == 2 * Float64(n) + Pow2(e) ==> m % 2 == 0)
  {
    hide RoundHalfEven, Ulp, Pow2;
    var u := Ulp(n);
    UlpBounds(n);
    SmallUlp(n);
    e := UlpIsPower(n);
    if n < MANTISSA {
      e := 0;
      PowZero();
    }
    RoundClose(n, u);
    RoundTie(n, u);
    assert Float64(n) == RoundHalfEven(n, u) * Pow2(e);
  }

  lemma PowZero()
    ensures Pow2(0) == 1
  {
  }

  lemma SmallUlp(n: nat)
    ensures n < MANTISSA ==> Ulp(n) == 1
  {
  }

  // In one unit a larger file never shows a smaller number.
  lemma TenthsMonotone(m: nat, n: nat, div: nat)
    requires m <= n && div > 0
    ensures Tenths(m, div) <= Tenths(n, div)
  {
    hide RoundHalfEven, Float64;
    Float64Monotone(m, n);
    RoundMonotone(10 * Float64(m), 10 * Float64(n), div);
  }

  // What is shown is off by at most half a tenth, and half a unit in the
  // last place of the count. Below 2^53 that is half a tenth.
  lemma TenthsClose(n: nat, div: nat)
    requires div > 0
    ensures var shown := Tenths(n, div) * div;
            2 * shown <= 20 * n + div + 10 * Ulp(n) && 20 * n <= 2 * shown + div + 10 * Ulp(n)
    ensures n < MANTISSA ==>
              2 * (Tenths(n, div) * div) <= 20 * n + div && 20 * n <= 2 * (Tenths(n, div) * div) + div
  {
    hide RoundHalfEven, Ulp;
    RoundClose(n, Ulp(n));
    RoundClose(10 * Float64(n), div);
    SmallUlp(n);
    if n < MANTISSA {
      assert n * 1 == n;
      RoundExact(n, 1);
    }
  }

  // ---------------------------------------------------------------------
  // The text
  // ---------------------------------------------------------------------

  const MAX_INT64: int := Decimal.MAX_INT64

  const UNITS: seq<string> := ["KiB", "MiB", "GiB", "TiB", "PiB", "EiB"]

  function Pow1024(n: nat): (r: nat)
    ensures r >= 1
  {
    if n == 0 then 1 else 1024 * Pow1024(n - 1)
  }

  function Scaled(tenths: nat, unit: nat): string
    requires unit < 6
  {
    Decimal.Digits(tenths / 10) + "." + Decimal.Digits(tenths % 10) + " " + UNITS[unit]
  }

  // Below 1024 the bytes are counted. From there on the unit is the one in
  // which the size is at least 1 and less than 1024, and the quotient is
  // shown to one digit. Nothing overflows int64.
  method HumanSize(n: int) returns (text: string, ghost unit: nat)
    requires -MAX_INT64 - 1 <= n <= MAX_INT64
    ensures n < 1024 ==> text == Decimal.FormatInt(if n < 0 then 0 else n) + " B"
    ensures n >= 1024 ==> unit < 6 && Pow1024(unit + 1) <= n < Pow1024(unit + 2)
    ensures 0x400 <= n < 0x10_0000 ==> ReadsAs(text, Tenths(n, 0x400), "KiB")
    ensures 0x10_0000 <= n < 0x4000_0000 ==> ReadsAs(text, Tenths(n, 0x10_0000), "MiB")
    ensures 0x4000_0000 <= n < 0x100_0000_0000 ==> ReadsAs(text, Tenths(n, 0x4000_0000), "GiB")
    ensures 0x100_0000_0000 <= n < 0x4_0000_0000_0000 ==> ReadsAs(text, Tenths(n, 0x100_0000_0000), "TiB")
    ensures 0x4_0000_0000_0000 <= n < 0x1000_0000_0000_0000 ==>
              ReadsAs(text, Tenths(n, 0x4_0000_0000_0000), "PiB")
    ensures 0x1000_0000_0000_0000 <= n ==> ReadsAs(text, Tenths(n, 0x1000_0000_0000_0000), "EiB")
  {
    hide Pow1024, Tenths, Scaled, ReadsAs;
    unit := 0;
    var num := if n < 0 then 0 else n;
    if num < 1024 {
      return Decimal.FormatInt(num) + " B", 0;
    }
    var div, exp := 1024, 0;
    Pow1024One();
    while num / div >= 1024 && exp < 5
      invariant 0 <= exp <= 5 && div == Pow1024(exp + 1)
      invariant div <= num
      decreases 5 - exp
    {
      Pow1024Step(exp + 1);
      DivStep(num, div);
      assert div * 1024 <= MAX_INT64;
      div := div * 1024;
      exp := exp + 1;
    }
    Pow1024Step(exp + 1);
    if exp == 5 {
      LastUnitSmall(num, div);
    }
    QuotientSmall(num, div);
    unit := exp;
    text := Scaled(Tenths(num, div), exp);
    ScaledReads(Tenths(num, div), exp);
    Powers();
  }

  // The text is a decimal number without leading zeros, one digit after the
  // point, and the name of a unit.
  ghost predicate ReadsAs(text: string, tenths: nat, name: string) {
    exists whole: string, digit: char ::
      && text == whole + "." + [digit] + " " + name
      && whole == Decimal.FormatInt(tenths / 10)
      && digit as int == '0' as int + tenths % 10
  }

  lemma ScaledReads(tenths: nat, unit: nat)
    requires unit < 6
    ensures ReadsAs(Scaled(tenths, unit), tenths, UNITS[unit])
  {
    assert Decimal.Digits(tenths % 10) == [('0' as int + tenths % 10) as char];
  }

  lemma Powers()
    ensures Pow1024(1) == 0x400 && Pow1024(2) == 0x10_0000 && Pow1024(3) == 0x4000_0000
    ensures Pow1024(4) == 0x100_0000_0000 && Pow1024(5) == 0x4_0000_0000_0000
    ensures Pow1024(6) == 0x1000_0000_0000_0000
  {
    hide Pow1024;
    Pow1024One();
    Pow1024Step(1);
    Pow1024Step(2);
    Pow1024Step(3);
    Pow1024Step(4);
    Pow1024Step(5);
  }

  lemma Pow1024One()
    ensures Pow1024(1) == 1024
  {
    assert Pow1024(0) == 1;
  }

  lemma Pow1024Step(n: nat)
    ensures Pow1024(n + 1) == 1024 * Pow1024(n)
  {
  }

  lemma DivStep(n: int, div: int)
    requires div >= 1 && n / div >= 1024
    ensures div * 1024 <= n
  {
    assert n == div * (n / div) + n % div;
    assert div * (n / div) >= div * 1024;
  }

  lemma QuotientSmall(n: nat, div: nat)
    requires div >= 1 && n / div < 1024
    ensures n < div * 1024
  {
    DivMod(n, div);
    assert div * (n / div) <= div * 1023;
  }

  // int64 does not reach 1024 EiB.
  lemma LastUnitSmall(n: int, div: int)
    requires 1 <= n <= MAX_INT64 && div == Pow1024(6)
    ensures n / div < 1024
  {
    hide Pow1024;
    Pow1024Six();
    assert n / 0x1000_0000_0000_0000 < 1024;
  }

  lemma Pow1024Six()
    ensures Pow1024(6) == 0x1000_0000_0000_0000
  {
    assert Pow1024(2) == 1024 * Pow1024(1) == 1024 * 1024 * Pow1024(0);
    assert Pow1024(4) == 1024 * Pow1024(3) == 1024 * 1024 * Pow1024(2);
    assert Pow1024(6) == 1024 * Pow1024(5) == 1024 * 1024 * Pow1024(4);
  }

  // The number shown is at least 1.0; but it can be 1024.0, in the unit
  // below: exactly for the sizes that are at least 1023.95 units as a float64.
  lemma ThousandShown(n: nat, unit: nat)
    requires unit < 6 && n <= MAX_INT64 && Pow1024(unit + 1) <= n < Pow1024(unit + 2)
    ensures var div := Pow1024(unit + 1);
            && 10 <= Tenths(n, div) <= 10240
            && (Tenths(n, div) == 10240 <==> 20 * Float64(n) >= 20479 * div)
  {
    hide Pow1024, Float64, RoundHalfEven;
    var div := Pow1024(unit + 1);
    Pow1024Step(unit + 1);
    PowerIsExact(unit + 1);
    Float64Monotone(div, n);
    RoundMonotone(10 * div, 10 * Float64(n), div);
    RoundExact(10, div);
    if unit < 5 {
      PowerIsExact(unit + 2);
      Float64Monotone(n, 1024 * div);
      assert 10 * Float64(n) <= 10240 * div;
    } else {
      assert unit + 1 == 6;
      Pow1024Six();
      EightExact();
      Float64Monotone(n, 8 * div);
      assert 10 * Float64(n) <= 10240 * div;
    }
    RoundMonotone(10 * Float64(n), 10240 * div, div);
    RoundExact(10240, div);
    TopHalf(10 * Float64(n), div);
  }

  // Of the quotients up to 10240, those from 10239.5 on round to it.
  lemma TopHalf(a: nat, div: nat)
    requires div > 0 && a <= 10240 * div
    ensures RoundHalfEven(a, div) == 10240 <==> 2 * a >= 20479 * div
  {
    RoundMonotone(a, 10240 * div, div);
    RoundExact(10240, div);
    RoundClose(a, div);
    if 2 * a == 20479 * div {
      DivUnique(a, div, 10239, a - 10239 * div);
    } else {
      var k := RoundHalfEven(a, div);
      hide RoundHalfEven;
      assert 2 * (k * div) + div == (2 * k + 1) * div;
      Scale(2 * k + 1, 20479, div);
    }
  }

  lemma EightExact()
    ensures Float64(8 * 0x1000_0000_0000_0000) == 8 * 0x1000_0000_0000_0000
  {
    UlpOfPower(0x8000_0000_0000_0000, 11);
  }

  // 2^53 * 2^j has last place 2^(j+1), which divides it.
  lemma {:induction false} UlpOfPower(n: nat, j: nat)
    requires j >= 1 && n == MANTISSA / 2 * Pow2(j)
    ensures Float64(n) == n && Ulp(n) == Pow2(j)
    decreases j
  {
    var half := MANTISSA / 2;
    if j == 1 {
      assert Pow2(1) == 2 * Pow2(0) == 2;
      assert n == MANTISSA && n / 2 == half;
      assert Ulp(n) == 2 * Ulp(half) == 2;
    } else {
      assert n / 2 == half * Pow2(j - 1);
      assert n >= MANTISSA by { Scale(2, Pow2(j), half); }
      UlpOfPower(n / 2, j - 1);
    }
    RoundExact(half, Pow2(j));
  }

  lemma PowerIsExact(k: nat)
    requires k <= 6
    ensures Float64(Pow1024(k)) == Pow1024(k)
  {
    hide RoundHalfEven;
    if k == 6 {
      Pow1024Six();
      UlpOfPower(0x1000_0000_0000_0000, 8);
    } else {
      assert Pow1024(1) == 1024 && Pow1024(2) == 1024 * 1024 && Pow1024(3) == 1024 * 1024 * 1024;
      assert Pow1024(4) == 1024 * Pow1024(3) && Pow1024(5) == 1024 * Pow1024(4);
      var p := Pow1024(k);
      assert p < MANTISSA;
      RoundExact(p, 1);
      assert p * 1 == p;
    }
  }

  // One byte less than a MiB shows as 1024.0 KiB.
  lemma ThousandShownExample()
    ensures Tenths(0xf_ffff, 1024) == 10240
  {
    assert Float64(0xf_ffff) == 0xf_ffff by { RoundExact(0xf_ffff, 1); }
  }
}
