/** Field values and their comparison (src/types.c).

  A C char is one byte: strings and blobs are sequences of characters below 256. Numbers compare as
  doubles: an integer is first rounded to 53 significant bits, and a binary64 pattern stands for the
  number it denotes; a NaN pattern compares as if it were a number.
 */
module Values {

  datatype Option<+T> = None | Some(value: T)

  datatype Value =
    | Null
    | Int(i: int)
    | Float(bits: nat)
    | Bool(b: nat)
    | Str(s: string)
    | Blob(data: string)
    | Array(items: seq<Value>)
    | Object(fields: seq<Field>)
    | Unknown(tag: nat)

  datatype Field = Field(name: string, value: Value)

  /** The result of a comparison; values of types that do not mix are incomparable. */
  datatype Order = Less | Equal | Greater | Incomparable

  predicate IsNumber(v: Value) {
    v.Int? || v.Float? || v.Bool?
  }

  function Pow2(n: nat): nat {
    if n == 0 then 1 else 2 * Pow2(n - 1)
  }

  lemma Pow2Positive(n: nat)
    ensures Pow2(n) > 0
  {
  }

  function Scale(m: int, e: int): real {
    if e >= 0 then (m * Pow2(e)) as real
    else
      Pow2Positive(-e);
      m as real / Pow2(-e) as real
  }

  const TWO_52 := 0x10_0000_0000_0000
  const TWO_63 := 0x8000_0000_0000_0000
  const TWO_64 := 0x1_0000_0000_0000_0000

  /** The number a binary64 pattern stands for. */
  function FloatOf(bits: nat): real {
    var sign := if bits >= TWO_63 then -1 else 1;
    var exponent, mantissa := (bits / TWO_52) % 2048, bits % TWO_52;
    if exponent == 0 then Scale(sign * mantissa, -1074)
    else Scale(sign * (TWO_52 + mantissa), exponent - 1075)
  }

  /** The sign bit negates, one step of the exponent doubles, and the exponent 1023 alone is one. */
  lemma FloatPatterns(bits: nat)
    requires bits < TWO_63
    ensures FloatOf(bits + TWO_63) == -FloatOf(bits)
    ensures 0 < bits / TWO_52 < 2046 ==> FloatOf(bits + TWO_52) == 2.0 * FloatOf(bits)
    ensures FloatOf(0x3FF0_0000_0000_0000) == 1.0
  {
    hide FloatOf;
    SignBit(bits);
    if 0 < bits / TWO_52 < 2046 {
      NextBinade(bits);
    }
    PatternOfOne();
  }

  // Patterns that denote the same number.

  /** The significand and the exponent of the magnitude of a pattern. */
  function Significand(bits: nat): nat {
    if bits / TWO_52 % 2048 == 0 then bits % TWO_52 else TWO_52 + bits % TWO_52
  }

  function Exponent(bits: nat): int {
    var e := bits / TWO_52 % 2048;
    if e == 0 then -1074 else e - 1075
  }

  lemma ScaleTwice(m: int, e: int)
    ensures Scale(m, e) == Scale(2 * m, e - 1)
  {
    if e > 0 {
      assert Pow2(e) == 2 * Pow2(e - 1);
    } else {
      Pow2Positive(-e);
      assert Pow2(1 - e) == 2 * Pow2(-e);
      var d := Pow2(-e) as real;
      assert Scale(m, e) == m as real / d;
      assert (2.0 * m as real) / (2.0 * d) == m as real / d;
    }
  }

  lemma ScaleMonotone(m: int, n: int, e: int)
    requires m < n
    ensures Scale(m, e) < Scale(n, e) && Scale(0, e) == 0.0 && Scale(-m, e) == -Scale(m, e)
  {
    Pow2Positive(if e >= 0 then e else -e);
    if e >= 0 {
      assert (n - m) * Pow2(e) > 0;
    } else {
      var d := Pow2(-e) as real;
      assert (n - m) as real / d > 0.0;
      assert n as real / d - m as real / d == (n - m) as real / d;
    }
  }

  lemma {:induction false} ScaleOrder(m: nat, e: int, n: nat, f: int)
    requires e <= f && (e == f ==> m < n) && (e < f ==> m < TWO_53 && n >= TWO_52)
    ensures Scale(m, e) < Scale(n, f)
    decreases f - e
  {
    if e == f {
      ScaleMonotone(m, n, e);
    } else {
      ScaleTwice(n, f);
      ScaleOrder(m, e, 2 * n, f - 1);
    }
  }

  lemma SignBit(bits: nat)
    requires bits < TWO_63
    ensures FloatOf(bits + TWO_63) == -FloatOf(bits)
  {
    hide Scale;
    var e, m := bits / TWO_52, bits % TWO_52;
    assert bits == e * TWO_52 + m && e < 2048 && bits + TWO_63 == (e + 2048) * TWO_52 + m;
    ScaleMonotone(m, m + 1, -1074);
    ScaleMonotone(TWO_52 + m, TWO_52 + m + 1, e - 1075);
  }

  lemma NextBinade(bits: nat)
    requires 0 < bits / TWO_52 < 2046
    ensures FloatOf(bits + TWO_52) == 2.0 * FloatOf(bits)
  {
    hide Scale;
    var e, m := bits / TWO_52, bits % TWO_52;
    assert (bits + TWO_52) / TWO_52 == e + 1 && (bits + TWO_52) % TWO_52 == m;
    assert FloatOf(bits + TWO_52) == Scale(TWO_52 + m, e - 1074) && FloatOf(bits) == Scale(TWO_52 + m, e - 1075);
    ScaleTwice(TWO_52 + m, e - 1074);
    ScaleLinear(2, TWO_52 + m, e - 1075);
  }

  lemma ScaleLinear(c: nat, m: nat, e: int)
    ensures Scale(c * m, e) == c as real * Scale(m, e)
  {
    Pow2Positive(if e >= 0 then e else -e);
    if e >= 0 {
      assert c * m * Pow2(e) == c * (m * Pow2(e));
    } else {
      assert (c * m) as real == c as real * m as real;
    }
  }

  /** The fraction counts in units of 2^-52. */
  lemma Fraction(e: nat, k: nat)
    requires 0 < e < 2048 && k < TWO_52
    ensures FloatOf(e * TWO_52 + k) == FloatOf(e * TWO_52) * (1.0 + k as real / TWO_52 as real)
  {
    hide Scale;
    ScaleLinear(TWO_52 + k, 1, e - 1075);
    ScaleLinear(TWO_52, 1, e - 1075);
    var u := Scale(1, e - 1075);
    assert (TWO_52 + k) as real == TWO_52 as real * (1.0 + k as real / TWO_52 as real);
  }

  lemma PatternOfOne()
    ensures FloatOf(0x3FF0_0000_0000_0000) == 1.0
  {
    assert 0x3FF0_0000_0000_0000 == 1023 * TWO_52;
    PowerOf52();
  }

  lemma PowerOf52()
    ensures Pow2(52) == TWO_52
  {
    assert Pow2(13) == 8192;
    PowerAdds(13, 13);
    PowerAdds(26, 26);
  }

  lemma {:induction false} PowerAdds(m: nat, n: nat)
    ensures Pow2(m + n) == Pow2(m) * Pow2(n)
  {
    if n > 0 {
      PowerAdds(m, n - 1);
    }
  }

  lemma FloatIs(bits: nat)
    ensures FloatOf(bits) ==
      if bits >= TWO_63 then -Scale(Significand(bits), Exponent(bits)) else Scale(Significand(bits), Exponent(bits))
  {
    var s, e := Significand(bits), Exponent(bits);
    ScaleMonotone(s, s + 1, e);
  }

  lemma Parts(bits: nat)
    ensures bits % TWO_63 == bits / TWO_52 % 2048 * TWO_52 + bits % TWO_52
  {
    var q := bits / TWO_52;
    assert bits == q * TWO_52 + bits % TWO_52 && q == q / 2048 * 2048 + q % 2048;
  }

  /** Greater magnitudes have greater patterns: the significand counts within the exponent. */
  lemma PartsOrder(a: nat, b: nat)
    requires a % TWO_63 < b % TWO_63
    ensures var m, e, n, f := Significand(a), Exponent(a), Significand(b), Exponent(b);
      e <= f && (e == f ==> m < n) && (e < f ==> m < TWO_53 && n >= TWO_52)
  {
    Parts(a);
    Parts(b);
    var d, e, m, n := a / TWO_52 % 2048, b / TWO_52 % 2048, a % TWO_52, b % TWO_52;
    assert d < e || (d == e && m < n);
  }

  lemma MagnitudeOrder(a: nat, b: nat)
    requires a % TWO_63 < b % TWO_63
    ensures Scale(Significand(a), Exponent(a)) < Scale(Significand(b), Exponent(b))
  {
    hide Scale, Significand, Exponent;
    PartsOrder(a, b);
    ScaleOrder(Significand(a), Exponent(a), Significand(b), Exponent(b));
  }

  lemma MagnitudeSign(a: nat)
    ensures Scale(Significand(a), Exponent(a)) >= 0.0
    ensures Scale(Significand(a), Exponent(a)) == 0.0 <==> a % TWO_63 == 0
  {
    hide Scale;
    Parts(a);
    ScaleMonotone(0, 1, Exponent(a));
    if Significand(a) > 0 {
      ScaleMonotone(0, Significand(a), Exponent(a));
    }
  }

  /** Two patterns denote the same number exactly when they are the same, or the two zeros. */
  lemma SameFloat(a: nat, b: nat)
    requires a < TWO_64 && b < TWO_64
    ensures FloatOf(a) == FloatOf(b) <==> a == b || (a % TWO_63 == 0 && b % TWO_63 == 0)
  {
    hide FloatOf, Scale, Significand, Exponent;
    FloatIs(a);
    FloatIs(b);
    MagnitudeSign(a);
    MagnitudeSign(b);
    if a % TWO_63 < b % TWO_63 {
      MagnitudeOrder(a, b);
    } else if a % TWO_63 > b % TWO_63 {
      MagnitudeOrder(b, a);
    }
  }

  const TWO_53 := 0x20_0000_0000_0000
  const TWO_54 := 0x40_0000_0000_0000

  /** The conversion of a magnitude to double: 53 significant bits, to nearest, ties to even. `sticky` says
      whether a one has already been shifted out below `n`. */
  function Nearest(n: nat, sticky: bool): nat {
    if n < TWO_53 then n
    else if n >= TWO_54 then 2 * Nearest(n / 2, sticky || n % 2 == 1)
    else if n % 2 == 0 || (!sticky && n % 4 == 1) then n - n % 2
    else n + 1
  }

  /** What a 64-bit integer becomes as a double. */
  function DoubleOf(i: int): int {
    if i < 0 then
      var m := Nearest(-i, false);
      0 - m
    else Nearest(i, false)
  }

  predicate Int64(i: int) {
    -TWO_63 <= i < TWO_63
  }

  /** No other 64-bit integer becomes the same double (`LoneExactly`). */
  predicate LoneInt(i: int) {
    -TWO_53 < i < TWO_53 || (-TWO_54 < i < TWO_54 && i % 4 == 2)
  }

  lemma {:induction false} NearestLarge(n: nat, sticky: bool)
    ensures n >= TWO_53 ==> Nearest(n, sticky) >= TWO_53
    ensures n >= TWO_54 ==> Nearest(n, sticky) >= TWO_54
  {
    if n >= TWO_54 {
      NearestLarge(n / 2, sticky || n % 2 == 1);
    }
  }

  lemma {:induction false} HalfOf(n: nat)
    requires n >= TWO_54
    ensures Nearest(n, false) == 2 * Nearest(n / 2, n % 2 == 1)
    ensures n >= 2 * TWO_54 ==> Nearest(n, false) == 4 * Nearest(n / 4, n % 4 != 0)
  {
    assert n / 2 / 2 == n / 4 && (n % 4 != 0 <==> n % 2 == 1 || n / 2 % 2 == 1);
  }

  /** The first binades with gaps between the integers that are doubles. */
  lemma {:induction false} NearestByTwo(n: nat, sticky: bool)
    requires TWO_53 <= n <= TWO_54
    ensures Nearest(n, sticky) == n - n % 2 + (if n % 2 == 1 && (sticky || n % 4 == 3) then 2 else 0)
  {
    if n == TWO_54 {
      assert n / 2 == TWO_53;
    }
  }

  /** Blocks of eight: two doubles, each the nearest to some of the eight. */
  lemma {:induction false} NearestByEight(a: nat, b: nat)
    requires b < 8 && TWO_54 <= 8 * a + b < 2 * TWO_54
    ensures Nearest(8 * a + b, false) == 8 * a + (if b < 3 then 0 else if b < 6 then 4 else 8)
  {
    var n := 8 * a + b;
    HalfOf(n);
    assert n / 2 == 4 * a + b / 2 && n % 2 == b % 2;
    NearestByTwo(4 * a + b / 2, b % 2 == 1);
  }

  /** Blocks of four: every second integer is a double. */
  lemma {:induction false} NearestInFour(a: nat, b: nat)
    requires b < 4 && TWO_53 <= 4 * a + b <= TWO_54
    ensures Nearest(4 * a + b, false) == 4 * a + (if b < 2 then 0 else if b == 2 then 2 else 4)
  {
    var n := 4 * a + b;
    NearestByTwo(n, false);
    hide Nearest;
    assert n % 4 == b && n % 2 == b % 2;
  }

  lemma TwinByTwo(a: nat, b: nat) returns (m: nat)
    requires b < 4 && b != 2 && TWO_53 <= 4 * a + b < TWO_54
    ensures m != 4 * a + b && TWO_53 <= m <= TWO_54 && Nearest(m, false) == Nearest(4 * a + b, false)
  {
    hide Nearest;
    NearestInFour(a, b);
    if b == 3 {
      m := 4 * (a + 1);
      NearestInFour(a + 1, 0);
    } else {
      m := 4 * a + (1 - b);
      NearestInFour(a, 1 - b);
    }
  }

  lemma TwinByFour(a: nat, b: nat) returns (m: nat)
    requires b < 8 && TWO_54 <= 8 * a + b < 2 * TWO_54
    ensures m != 8 * a + b && TWO_54 <= m < 2 * TWO_54 && Nearest(m, false) == Nearest(8 * a + b, false)
  {
    hide Nearest;
    var c := if b == 0 || b == 3 || b == 4 || b == 6 then b + 1 else b - 1;
    m := 8 * a + c;
    NearestByEight(a, b);
    NearestByEight(a, c);
  }

  lemma NearTwin(n: nat) returns (m: nat)
    requires TWO_53 <= n < 2 * TWO_54 && (n < TWO_54 ==> n % 4 != 2)
    ensures m != n && TWO_53 <= m <= 2 * TWO_54 - 1 && Nearest(m, false) == Nearest(n, false)
    ensures n >= TWO_54 ==> m >= TWO_54
  {
    hide Nearest;
    if n < TWO_54 {
      m := TwinByTwo(n / 4, n % 4);
    } else {
      m := TwinByFour(n / 8, n % 8);
    }
  }

  /** From 2^54 on each magnitude shares its double with another one of the same width. */
  lemma {:induction false} Twin(n: nat, width: nat) returns (m: nat)
    requires TWO_54 <= n < 2 * TWO_54 * Pow2(width)
    ensures m != n && TWO_54 <= m < 2 * TWO_54 * Pow2(width) && Nearest(m, false) == Nearest(n, false)
    decreases n
  {
    hide Nearest;
    if n < 2 * TWO_54 {
      Pow2Positive(width);
      m := NearTwin(n);
    } else if n % 2 == 0 {
      var half := Twin(n / 2, width - 1);
      m := 2 * half;
      Doubled(n / 2);
      Doubled(half);
    } else {
      m := if n % 4 == 1 then n + 1 else n - 1;
      Sticky(n / 4, n % 4);
      Sticky(n / 4, m % 4);
      Quarters(width);
    }
  }

  lemma {:induction false} Doubled(k: nat)
    requires k >= TWO_53
    ensures Nearest(2 * k, false) == 2 * Nearest(k, false)
  {
  }

  /** Below the last two bits only whether they are zero matters. */
  lemma Sticky(a: nat, b: nat)
    requires b < 4 && 4 * a + b >= 2 * TWO_54
    ensures Nearest(4 * a + b, false) == 4 * Nearest(a, b != 0)
  {
    hide Nearest;
    HalfOf(4 * a + b);
  }

  lemma Quarters(width: nat)
    ensures 2 * TWO_54 * Pow2(width) % 4 == 0
  {
  }

  lemma LoneMagnitude(n: nat, k: nat)
    requires n < TWO_53 || (n < TWO_54 && n % 4 == 2)
    requires Nearest(k, false) == Nearest(n, false)
    ensures k == n
  {
    NearestLarge(k, false);
    NearestLarge(n, false);
  }

  lemma {:induction false} RoundsUp(n: nat, width: nat, sticky: bool)
    requires n > 0 && n == TWO_54 * Pow2(width)
    ensures Nearest(n, false) == Nearest(n - 1, sticky) == n
  {
    if width == 0 {
      NearestByTwo(n, false);
      NearestByTwo(n - 1, sticky);
    } else {
      RoundsUp(n / 2, width - 1, true);
      assert n == 2 * (n / 2) && (n - 1) / 2 == n / 2 - 1;
    }
  }

  lemma ZeroOnly(n: nat)
    ensures Nearest(n, false) == 0 <==> n == 0
  {
    NearestLarge(n, false);
  }

  lemma TopOfRange()
    ensures Nearest(TWO_63, false) == Nearest(TWO_63 - 1, false)
  {
    assert Pow2(9) == 512;
    RoundsUp(TWO_63, 9, false);
  }

  /** An integer shares its double with no other one exactly when `LoneInt` holds. */
  lemma LoneExactly(v: int)
    requires Int64(v)
    ensures LoneInt(v) <==> forall x :: Int64(x) && DoubleOf(x) == DoubleOf(v) ==> x == v
  {
    hide Nearest;
    var n, sign := if v < 0 then -v else v, if v < 0 then -1 else 1;
    if LoneInt(v) {
      forall x | Int64(x) && DoubleOf(x) == DoubleOf(v)
        ensures x == v
      {
        var k := if x < 0 then -x else x;
        ZeroOnly(n);
        ZeroOnly(k);
        LoneMagnitude(n, k);
      }
    } else {
      var m: nat;
      if n < 2 * TWO_54 {
        m := NearTwin(n);
      } else if n < TWO_63 {
        assert Pow2(8) == 256;
        m := Twin(n, 8);
      } else {
        m := n - 1;
        TopOfRange();
      }
      assert Int64(sign * m) && DoubleOf(sign * m) == DoubleOf(v) && sign * m != v;
    }
  }

  function Times(j: nat, k: nat): nat {
    j * k
  }

  /** The magnitudes of integers that are doubles: at most 53 significant bits. */
  ghost predicate Representable(m: nat) {
    exists s: nat, e: nat :: s < TWO_53 && Times(s, Pow2(e)) == m
  }

  function Distance(x: real, m: nat): real {
    if x < m as real then m as real - x else x - m as real
  }

  lemma Doubles(m: nat)
    ensures m < TWO_53 ==> Representable(m)
    ensures Representable(m) ==> Representable(2 * m)
    ensures Representable(m) && m >= TWO_53 ==> m % 2 == 0 && Representable(m / 2)
  {
    if m < TWO_53 {
      assert Times(m, Pow2(0)) == m;
    }
    if Representable(m) {
      var s: nat, e: nat :| s < TWO_53 && Times(s, Pow2(e)) == m;
      assert Times(s, Pow2(e + 1)) == 2 * m;
      if m >= TWO_53 {
        assert e > 0 && m == 2 * Times(s, Pow2(e - 1));
      }
    }
  }

  ghost predicate MultipleOf(d: nat, k: nat) {
    exists j :: Times(j, k) == d
  }

  lemma IsMultiple(j: nat, k: nat, d: nat)
    requires d == j * k
    ensures MultipleOf(d, k)
  {
    assert Times(j, k) == d;
  }

  function Gap(a: nat, b: nat): nat {
    if a < b then b - a else a - b
  }

  /** As near as `m`, and when just as near, the even one of the two. */
  ghost predicate AsNear(x: real, d: nat, m: nat) {
    && Distance(x, d) <= Distance(x, m)
    && (m != d && Distance(x, d) == Distance(x, m) ==>
          MultipleOf(d, 2 * Gap(d, m)))
  }

  /** `x` is what the bits shifted out so far make of `n`: no double is nearer to it than the result, and when
      another one is as near, the result is the even one. */
  lemma {:induction false} NearestOf(n: nat, sticky: bool, x: real, m: nat)
    requires n as real <= x < (n + 1) as real && (sticky <==> x > n as real) && (sticky ==> n >= TWO_53)
    requires Representable(m)
    ensures Representable(Nearest(n, sticky)) && AsNear(x, Nearest(n, sticky), m)
    decreases n, TWO_53 - m
  {
    hide Representable, AsNear;
    Doubles(n);
    Doubles(m);
    if n < TWO_53 {
      Exactly(x, n, m);
    } else if m < TWO_53 {
      Doubles(TWO_52);
      NearestOf(n, sticky, x, TWO_53);
      FartherBelow(x, Nearest(n, sticky), m);
    } else if n >= TWO_54 {
      var more := sticky || n % 2 == 1;
      assert n / 2 >= TWO_53 && m == 2 * (m / 2);
      NearestOf(n / 2, more, x / 2.0, m / 2);
      Doubles(Nearest(n / 2, more));
      Halved(x, Nearest(n / 2, more), m / 2);
    } else {
      ByTwo(n, sticky, x, m);
    }
  }

  lemma Exactly(x: real, n: nat, m: nat)
    requires x == n as real
    ensures AsNear(x, n, m)
  {
  }

  lemma FartherBelow(x: real, d: nat, m: nat)
    requires x >= TWO_53 as real && m < TWO_53 && AsNear(x, d, TWO_53)
    ensures AsNear(x, d, m)
  {
  }

  lemma Halved(x: real, d: nat, m: nat)
    requires AsNear(x / 2.0, d, m)
    ensures AsNear(x, 2 * d, 2 * m)
  {
    assert Distance(x, 2 * d) == 2.0 * Distance(x / 2.0, d);
    assert Distance(x, 2 * m) == 2.0 * Distance(x / 2.0, m);
    if m != d && Distance(x, 2 * d) == Distance(x, 2 * m) {
      var j :| Times(j, 2 * Gap(d, m)) == d;
      assert Gap(2 * d, 2 * m) == 2 * Gap(d, m);
      IsMultiple(j, 2 * (2 * Gap(d, m)), 2 * d);
    }
  }

  lemma ByTwo(n: nat, sticky: bool, x: real, m: nat)
    requires TWO_53 <= n < TWO_54 && n as real <= x < (n + 1) as real && (sticky <==> x > n as real)
    requires m >= TWO_53 && m % 2 == 0
    ensures Representable(Nearest(n, sticky)) && AsNear(x, Nearest(n, sticky), m)
  {
    hide Representable, Nearest, AsNear;
    NearestByTwo(n, sticky);
    var d := Nearest(n, sticky);
    Doubles(TWO_52);
    Doubles(d / 2);
    assert d == 2 * (d / 2) && m == 2 * (m / 2);
    WithinOne(x, d / 2, m / 2);
  }

  /** Even numbers are two apart. */
  lemma WithinOne(x: real, i: nat, j: nat)
    requires Distance(x, 2 * i) <= 1.0 && (Distance(x, 2 * i) == 1.0 ==> i % 2 == 0)
    ensures AsNear(x, 2 * i, 2 * j)
  {
    hide MultipleOf;
    if i != j {
      Farther(x, i, j);
      if i % 2 == 0 {
        IsMultiple(i / 2, 4, 2 * i);
      }
    }
  }

  lemma Farther(x: real, i: nat, j: nat)
    requires Distance(x, 2 * i) <= 1.0 && i != j
    ensures Distance(x, 2 * i) <= Distance(x, 2 * j)
    ensures Distance(x, 2 * i) == Distance(x, 2 * j) ==> Distance(x, 2 * i) == 1.0 && Gap(2 * i, 2 * j) == 2
  {
    assert (2 * i) as real == 2.0 * i as real && (2 * j) as real == 2.0 * j as real;
    assert i <= j - 1 || j <= i - 1;
  }

  /** The conversion of an integer to a double is to nearest, ties to even; up to 2^53 it is exact. */
  lemma DoubleIsNearest(i: int, m: nat)
    requires Representable(m)
    ensures var n, d := if i < 0 then -i else i, if i < 0 then -DoubleOf(i) else DoubleOf(i);
      d >= 0 && Representable(d) && AsNear(n as real, d, m) && (n <= TWO_53 ==> DoubleOf(i) == i)
  {
    hide Nearest, AsNear;
    var n := if i < 0 then -i else i;
    NearestOf(n, false, n as real, m);
    SmallIsExact(n);
  }

  lemma SmallIsExact(n: nat)
    ensures n <= TWO_53 ==> Nearest(n, false) == n
  {
  }

  function ToReal(v: Value): real {
    match v
    case Int(i) => DoubleOf(i) as real
    case Float(bits) => FloatOf(bits)
    case Bool(b) => b as real
    case _ => 0.0
  }

  function CompareReals(a: real, b: real): Order {
    if a < b then Less else if a > b then Greater else Equal
  }

  /** `strcmp`: the first differing character decides, a proper prefix is less. */
  function CompareStrings(a: string, b: string): (o: Order)
    ensures o == Equal <==> a == b
    ensures o != Incomparable
  {
    if a == "" && b == "" then Equal
    else if a == "" then Less
    else if b == "" then Greater
    else if a[0] < b[0] then Less
    else if a[0] > b[0] then Greater
    else
      assert a == [a[0]] + a[1..] && b == [b[0]] + b[1..];
      CompareStrings(a[1..], b[1..])
  }

  /** Dictionary order: a proper prefix, or the smaller character at the first difference. */
  predicate Earlier(a: string, b: string) {
    exists k: nat :: k <= |a| && k < |b| && a[..k] == b[..k] && (k == |a| || a[k] < b[k])
  }

  lemma {:induction false} EarlierNext(a: string, b: string)
    requires a != "" && b != "" && a[0] == b[0]
    ensures Earlier(a, b) <==> Earlier(a[1..], b[1..])
  {
    if Earlier(a, b) {
      var k: nat :| k <= |a| && k < |b| && a[..k] == b[..k] && (k == |a| || a[k] < b[k]);
      assert k > 0;
      assert a[1..][..k - 1] == a[..k][1..] == b[..k][1..] == b[1..][..k - 1];
    }
    if Earlier(a[1..], b[1..]) {
      var c, d := a[1..], b[1..];
      var k: nat :| k <= |c| && k < |d| && c[..k] == d[..k] && (k == |c| || c[k] < d[k]);
      assert a[..k + 1] == [a[0]] + c[..k] && b[..k + 1] == [b[0]] + d[..k];
    }
  }

  /** Strings compare in dictionary order. */
  lemma {:induction false} StringsCompare(a: string, b: string)
    ensures CompareStrings(a, b) == Less <==> Earlier(a, b)
    ensures CompareStrings(a, b) == Greater <==> Earlier(b, a)
  {
    if a != "" && b != "" && a[0] == b[0] {
      EarlierNext(a, b);
      EarlierNext(b, a);
      StringsCompare(a[1..], b[1..]);
    } else {
      FirstDiffers(a, b);
      FirstDiffers(b, a);
    }
  }

  lemma FirstDiffers(a: string, b: string)
    requires a == "" || b == "" || a[0] != b[0]
    ensures Earlier(a, b) <==> b != "" && (a == "" || a[0] < b[0])
  {
    if b != "" && (a == "" || a[0] < b[0]) {
      assert a[..0] == b[..0];
    }
    if Earlier(a, b) {
      var k: nat :| k <= |a| && k < |b| && a[..k] == b[..k] && (k == |a| || a[k] < b[k]);
      assert k == 0;
    }
  }

  function Compare(a: Value, b: Value): Order
    decreases a
  {
    if a.Null? && b.Null? then Equal
    else if a.Null? then Less
    else if b.Null? then Greater
    else if IsNumber(a) && IsNumber(b) then CompareReals(ToReal(a), ToReal(b))
    else if a.Str? && b.Str? then CompareStrings(a.s, b.s)
    else if a.Array? && b.Array? then CompareItems(a.items, b.items)
    else if a.Object? && b.Object? then CompareFields(a.fields, b.fields)
    else Incomparable
  }

  /** Arrays compare element by element; on a common prefix the shorter one is less. */
  function CompareItems(a: seq<Value>, b: seq<Value>): Order
    decreases a
  {
    if a == [] && b == [] then Equal
    else if a == [] then Less
    else if b == [] then Greater
    else
      var c := Compare(a[0], b[0]);
      if c != Equal then c else CompareItems(a[1..], b[1..])
  }

  /** Objects compare by (name, value) pairs in stored order. */
  function CompareFields(a: seq<Field>, b: seq<Field>): Order
    decreases a
  {
    if a == [] && b == [] then Equal
    else if a == [] then Less
    else if b == [] then Greater
    else
      var n := CompareStrings(a[0].name, b[0].name);
      if n != Equal then n else
      var c := Compare(a[0].value, b[0].value);
      if c != Equal then c else CompareFields(a[1..], b[1..])
  }

  /** What every equality filter tests. */
  predicate Eq(a: Value, b: Value) {
    Compare(a, b) == Equal
  }

  /** Two numbers are equal when they denote the same one, strings when they are the same, arrays element by element
      and objects when the same names hold equal values in the same order. Values of other types, or of types that
      do not mix, are never equal. */
  lemma EqExactly(a: Value, b: Value)
    ensures Eq(a, b) <==>
      || (a.Null? && b.Null?)
      || (IsNumber(a) && IsNumber(b) && ToReal(a) == ToReal(b))
      || (a.Str? && b.Str? && a.s == b.s)
      || (a.Array? && b.Array? && |a.items| == |b.items|
          && forall i :: 0 <= i < |a.items| ==> Eq(a.items[i], b.items[i]))
      || (a.Object? && b.Object? && |a.fields| == |b.fields|
          && forall i :: 0 <= i < |a.fields| ==>
               a.fields[i].name == b.fields[i].name && Eq(a.fields[i].value, b.fields[i].value))
  {
    if a.Array? && b.Array? {
      ItemsEqual(a.items, b.items);
    } else if a.Object? && b.Object? {
      FieldsEqual(a.fields, b.fields);
    }
  }

  lemma {:induction false} ItemsEqual(a: seq<Value>, b: seq<Value>)
    ensures CompareItems(a, b) == Equal <==> |a| == |b| && forall i :: 0 <= i < |a| ==> Eq(a[i], b[i])
  {
    if a != [] && b != [] {
      ItemsEqual(a[1..], b[1..]);
      assert forall i :: 0 <= i < |a| - 1 ==> a[1..][i] == a[i + 1];
      assert forall i :: 0 <= i < |b| - 1 ==> b[1..][i] == b[i + 1];
      assert forall i :: 0 < i < |a| ==> a[i] == a[1..][i - 1];
    }
  }

  lemma {:induction false} FieldsEqual(a: seq<Field>, b: seq<Field>)
    ensures CompareFields(a, b) == Equal <==>
      |a| == |b| && forall i :: 0 <= i < |a| ==> a[i].name == b[i].name && Eq(a[i].value, b[i].value)
  {
    if a != [] && b != [] {
      FieldsEqual(a[1..], b[1..]);
      assert forall i :: 0 <= i < |a| - 1 ==> a[1..][i] == a[i + 1];
      assert forall i :: 0 <= i < |b| - 1 ==> b[1..][i] == b[i + 1];
      assert forall i :: 0 < i < |a| ==> a[i] == a[1..][i - 1];
    }
  }

  /** The first elements that are not equal decide between two arrays, and when there are none, the lengths. */
  lemma {:induction false} FirstUnequalDecides(a: seq<Value>, b: seq<Value>, k: nat)
    requires k <= |a| && k <= |b| && forall i :: 0 <= i < k ==> Eq(a[i], b[i])
    ensures k < |a| && k < |b| && !Eq(a[k], b[k]) ==> CompareItems(a, b) == Compare(a[k], b[k])
    ensures k == |a| < |b| ==> CompareItems(a, b) == Less
    ensures k == |b| < |a| ==> CompareItems(a, b) == Greater
  {
    if k > 0 {
      assert forall i :: 0 <= i < k - 1 ==> a[1..][i] == a[i + 1] && b[1..][i] == b[i + 1];
      FirstUnequalDecides(a[1..], b[1..], k - 1);
    }
  }

  /** No blob (or value of unknown type) anywhere inside: those are incomparable, even with themselves. */
  predicate BlobFree(v: Value)
    decreases v
  {
    match v
    case Blob(_) => false
    case Unknown(_) => false
    case Array(items) => forall i :: 0 <= i < |items| ==> BlobFree(items[i])
    case Object(fields) => forall i :: 0 <= i < |fields| ==> BlobFree(fields[i].value)
    case _ => true
  }

  lemma {:induction false} EqSymmetric(a: Value, b: Value)
    ensures Eq(a, b) <==> Eq(b, a)
    decreases a
  {
    if a.Array? && b.Array? {
      ItemsSymmetric(a.items, b.items);
    } else if a.Object? && b.Object? {
      FieldsSymmetric(a.fields, b.fields);
    }
  }

  lemma {:induction false} ItemsSymmetric(a: seq<Value>, b: seq<Value>)
    ensures CompareItems(a, b) == Equal <==> CompareItems(b, a) == Equal
    decreases a
  {
    if a != [] && b != [] {
      EqSymmetric(a[0], b[0]);
      ItemsSymmetric(a[1..], b[1..]);
    }
  }

  lemma {:induction false} FieldsSymmetric(a: seq<Field>, b: seq<Field>)
    ensures CompareFields(a, b) == Equal <==> CompareFields(b, a) == Equal
    decreases a
  {
    if a != [] && b != [] {
      EqSymmetric(a[0].value, b[0].value);
      FieldsSymmetric(a[1..], b[1..]);
    }
  }

  lemma {:induction false} EqTransitive(a: Value, b: Value, c: Value)
    requires Eq(a, b) && Eq(b, c)
    ensures Eq(a, c)
    decreases a
  {
    if a.Array? && b.Array? {
      ItemsTransitive(a.items, b.items, c.items);
    } else if a.Object? && b.Object? {
      FieldsTransitive(a.fields, b.fields, c.fields);
    }
  }

  lemma {:induction false} ItemsTransitive(a: seq<Value>, b: seq<Value>, c: seq<Value>)
    requires CompareItems(a, b) == Equal && CompareItems(b, c) == Equal
    ensures CompareItems(a, c) == Equal
    decreases a
  {
    if a != [] {
      EqTransitive(a[0], b[0], c[0]);
      ItemsTransitive(a[1..], b[1..], c[1..]);
    }
  }

  lemma {:induction false} FieldsTransitive(a: seq<Field>, b: seq<Field>, c: seq<Field>)
    requires CompareFields(a, b) == Equal && CompareFields(b, c) == Equal
    ensures CompareFields(a, c) == Equal
    decreases a
  {
    if a != [] {
      EqTransitive(a[0].value, b[0].value, c[0].value);
      FieldsTransitive(a[1..], b[1..], c[1..]);
    }
  }

  /** A value equals itself exactly when it holds no blob. */
  lemma {:induction false} EqReflexive(v: Value)
    ensures Eq(v, v) <==> BlobFree(v)
    decreases v
  {
    if v.Array? {
      ItemsReflexive(v.items);
    } else if v.Object? {
      FieldsReflexive(v.fields);
    }
  }

  lemma {:induction false} ItemsReflexive(a: seq<Value>)
    ensures CompareItems(a, a) == Equal <==> forall i :: 0 <= i < |a| ==> BlobFree(a[i])
    decreases a
  {
    if a != [] {
      EqReflexive(a[0]);
      ItemsReflexive(a[1..]);
      assert forall i :: 0 < i < |a| ==> a[i] == a[1..][i - 1];
    }
  }

  lemma {:induction false} FieldsReflexive(a: seq<Field>)
    ensures CompareFields(a, a) == Equal <==> forall i :: 0 <= i < |a| ==> BlobFree(a[i].value)
    decreases a
  {
    if a != [] {
      EqReflexive(a[0].value);
      FieldsReflexive(a[1..]);
      assert forall i :: 0 < i < |a| ==> a[i] == a[1..][i - 1];
    }
  }
}
