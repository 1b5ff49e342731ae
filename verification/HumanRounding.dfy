/** Exact scaling and rounding with three small numbers: the integer part of a quotient, its
    first decimal, and a four-valued code for everything below that. */
module HumanRounding {
  import opened Wrappers

  /** How far num/den is past amt.tenths, in units of 1/(20*den). */
  ghost function Excess(num: nat, den: nat, amt: nat, tenths: nat): int {
    20 * num - den * (20 * amt + 2 * tenths)
  }

  /** The meaning of the code: num/den is amt.tenths exactly (0), less than 0.05 above it (1),
      0.05 above it (2), or more than that but less than 0.1 above it (3). */
  ghost predicate Describes(num: nat, den: nat, amt: nat, tenths: nat, rounding: nat) {
    var d := Excess(num, den, amt, tenths);
    && 0 < den && tenths < 10 && 0 <= d < 2 * den
    && rounding == Code(d, den)
  }

  /** Unsigned division and remainder. */
  function Div(a: nat, b: nat): nat
    requires 0 < b
  {
    a / b
  }

  function Mod(a: nat, b: nat): nat
    requires 0 < b
  {
    a % b
  }

  datatype Quotient = Quotient(amt: nat, tenths: nat, rounding: nat)

  /** n in units of 1/divisor, in wrapping 64-bit arithmetic. */
  function Divide(n: nat, divisor: nat): Quotient
    requires 0 < divisor
  {
    var r10 := Mod(n, divisor) * 10 % MODULUS;
    Quotient(Div(n, divisor), Div(r10, divisor), TwiceCode(Mod(r10, divisor), divisor))
  }

  /** The code when s/den of a tenth are left. */
  function TwiceCode(s: nat, den: nat): nat {
    var r2 := s * 2 % MODULUS;
    if r2 < den then (if 0 < r2 then 1 else 0) else 2 + if den < r2 then 1 else 0
  }

  /** One division by the base. */
  function Scale(q: Quotient, base: nat): Quotient
    requires 0 < base
  {
    var r10 := Mod(q.amt, base) * 10 + q.tenths;
    var r2 := Mod(r10, base) * 2 + q.rounding / 2;
    Quotient(Div(q.amt, base), Div(r10, base),
             if r2 < base then (if r2 + q.rounding != 0 then 1 else 0)
             else 2 + if base < r2 + q.rounding then 1 else 0)
  }

  lemma Split(a: nat, b: nat)
    requires 0 < b
    ensures a == b * Div(a, b) + Mod(a, b) && Mod(a, b) < b
  {
  }

  lemma Monotone(den: int, a: int, b: int)
    requires 0 < den && a <= b
    ensures a * den <= b * den
  {
  }

  lemma Between(a: int, b: int, lo: int, den: int)
    requires 0 < den && 0 <= lo < den
    ensures a < b ==> a * den + lo < b * den
    ensures a >= b ==> a * den + lo >= b * den
    ensures a > b ==> a * den + lo > b * den
  {
    if a < b { Monotone(den, a + 1, b); }
    if a >= b { Monotone(den, b, a); }
    if a > b { Monotone(den, b + 1, a); }
  }

  lemma Twice(base: nat, x: nat, y: nat)
    ensures base * (20 * x + 2 * y) == 20 * (base * x) + 2 * (base * y)
  {
  }

  lemma Factor(den: nat, base: nat, x: nat, z: nat)
    ensures den * (base * x + z) == den * base * x + den * z
  {
    assert den * (base * x) == den * base * x;
  }

  /** The excess after a division by the base, from the quotients q, t and remainders m, s. */
  lemma ScaledExcess(num: nat, den: nat, base: nat, q: nat, m: nat, tenths: nat, t: nat, s: nat)
    requires m * 10 + tenths == base * t + s
    ensures Excess(num, den * base, q, t) == Excess(num, den, base * q + m, tenths) + den * (2 * s)
  {
    var x := 20 * q + 2 * t;
    Twice(base, q, t);
    assert 20 * (base * q + m) + 2 * tenths == base * x + 2 * s;
    Factor(den, base, x, 2 * s);
  }

  /** The code for an excess d over a denominator den. */
  ghost function Code(d: int, den: nat): nat {
    if d == 0 then 0 else if d < den then 1 else if d == den then 2 else 3
  }

  /** The excess after a step is r2 * den + lo, where lo is 0 exactly for an even code; the new
      code only looks at r2 and the old code. This is where the base must be even: an odd r2,
      which comes from a code of 2 or 3, never equals it. */
  lemma StepCode(r2: nat, s: nat, rounding: nat, lo: nat, den: nat, base: nat)
    requires 0 < base && base % 2 == 0 && rounding < 4 && r2 == 2 * s + rounding / 2 && r2 < 2 * base
    requires lo < den && (lo == 0 <==> rounding % 2 == 0)
    ensures 0 <= r2 * den + lo < 2 * (den * base)
    ensures Code(r2 * den + lo, den * base)
            == if r2 < base then (if r2 + rounding != 0 then 1 else 0)
               else 2 + if base < r2 + rounding then 1 else 0
  {
    var d, half := r2 * den + lo, den * base;
    BelowHalf(r2, lo, den, base, half);
    if r2 == base { assert rounding < 2; }
    assert r2 == 0 ==> d == lo;
    assert 0 < r2 ==> 0 < d by { Monotone(den, if 0 < r2 then 1 else 0, r2); }
    hide Code;
    CodeIs(d, half, if r2 < base then (if r2 + rounding != 0 then 1 else 0)
                    else 2 + if base < r2 + rounding then 1 else 0);
  }

  lemma CodeIs(d: nat, half: nat, c: nat)
    requires (d == 0 && c == 0) || (0 < d < half && c == 1) || (0 < half == d && c == 2) || (0 < half < d && c == 3)
    ensures Code(d, half) == c
  {
  }

  /** How r2 * den + lo compares with den * base. */
  lemma BelowHalf(r2: nat, lo: nat, den: nat, base: nat, half: nat)
    requires lo < den && half == den * base
    ensures r2 < base ==> r2 * den + lo < half
    ensures r2 == base ==> r2 * den + lo == half + lo
    ensures base < r2 ==> half < r2 * den + lo
    ensures r2 < 2 * base ==> r2 * den + lo < 2 * half
    ensures 0 < base ==> 0 < half
  {
    Between(r2, base, lo, den);
    Between(r2, 2 * base, lo, den);
    if 0 < base { Monotone(den, 1, base); }
    assert base * den == half && 2 * base * den == 2 * half;
  }

  lemma StepDescribes(num: nat, den: nat, base: nat, q: nat, m: nat, tenths: nat, rounding: nat,
                      t: nat, s: nat)
    requires 0 < base && base % 2 == 0 && s < base && t < 10 && m * 10 + tenths == base * t + s
    requires Describes(num, den, base * q + m, tenths, rounding)
    ensures var r2 := 2 * s + rounding / 2;
            Describes(num, den * base, q, t,
                      if r2 < base then (if r2 + rounding != 0 then 1 else 0)
                      else 2 + if base < r2 + rounding then 1 else 0)
  {
    hide Excess;
    var d := Excess(num, den, base * q + m, tenths);
    ScaledExcess(num, den, base, q, m, tenths, t, s);
    var lo := CodeParts(d, den);
    Gather(den, s, rounding / 2, lo);
    StepCode(2 * s + rounding / 2, s, rounding, lo, den, base);
    assert 0 < den * base;
  }

  /** For an even base the three numbers describe the exact quotient again after a step: no
      information is lost, however many steps are taken. */
  lemma ScaleDescribes(num: nat, den: nat, base: nat, q: Quotient)
    requires Describes(num, den, q.amt, q.tenths, q.rounding) && 0 < base && base % 2 == 0
    ensures var r := Scale(q, base); Describes(num, den * base, r.amt, r.tenths, r.rounding)
  {
    hide Describes, Scale;
    TenthsSmall(num, den, q);
    var a, m, t, s := ScaleParts(q, base);
    StepDescribes(num, den, base, a, m, q.tenths, q.rounding, t, s);
  }

  lemma ScaleParts(q: Quotient, base: nat) returns (a: nat, m: nat, t: nat, s: nat)
    requires q.tenths < 10 && 0 < base
    ensures q.amt == base * a + m && m * 10 + q.tenths == base * t + s && s < base && t < 10
    ensures var r2 := 2 * s + q.rounding / 2;
            Scale(q, base) == Quotient(a, t, if r2 < base then (if r2 + q.rounding != 0 then 1 else 0)
                                             else 2 + if base < r2 + q.rounding then 1 else 0)
  {
    hide Div, Mod;
    a, m := Div(q.amt, base), Mod(q.amt, base);
    var r10 := m * 10 + q.tenths;
    t, s := Div(r10, base), Mod(r10, base);
    Split(q.amt, base);
    Split(r10, base);
    Bounded(r10, base);
  }

  lemma TenthsSmall(num: nat, den: nat, q: Quotient)
    requires Describes(num, den, q.amt, q.tenths, q.rounding)
    ensures q.tenths < 10 && q.rounding < 4
  {
  }

  lemma CodeParts(d: nat, den: nat) returns (lo: nat)
    requires d < 2 * den
    ensures var c := Code(d, den);
            c < 4 && lo < den && (lo == 0 <==> c % 2 == 0) && d == (c / 2) * den + lo
  {
    lo := if d < den then d else d - den;
  }

  lemma Gather(den: nat, s: nat, hi: nat, lo: nat)
    ensures den * (2 * s) + (hi * den + lo) == (2 * s + hi) * den + lo
  {
  }

  lemma Bounded(r10: nat, base: nat)
    requires 0 < base
    ensures r10 < 10 * base ==> Div(r10, base) < 10
  {
    hide Div, Mod;
    Split(r10, base);
    Monotone(base, 10, if Div(r10, base) < 10 then 10 else Div(r10, base));
  }

  /** With an odd base a step can miss a tie: 0.25 divided by 5 is 0.05 exactly, and comes out
      as more than that. */
  lemma OddBaseLosesTies()
    ensures Describes(1, 4, 0, 2, 2)
    ensures var r := Scale(Quotient(0, 2, 2), 5); !Describes(1, 20, r.amt, r.tenths, r.rounding)
  {
    assert Scale(Quotient(0, 2, 2), 5) == Quotient(0, 0, 3);
    assert Excess(1, 20, 0, 0) == 20;
  }

  /** The first division is exact precisely when neither product wraps. */
  lemma DivideExact(n: nat, divisor: nat)
    requires 0 < divisor < MODULUS
    ensures var q := Divide(n, divisor);
            Describes(n, divisor, q.amt, q.tenths, q.rounding)
            <==> Mod(n, divisor) * 10 < MODULUS && Mod(Mod(n, divisor) * 10, divisor) * 2 < MODULUS
  {
    hide Describes, Div, Mod, TwiceCode;
    var m := Mod(n, divisor);
    var r10 := m * 10 % MODULUS;
    Split(n, divisor);
    Split(r10, divisor);
    DivideParts(n, divisor, Div(n, divisor), m, r10, Div(r10, divisor), Mod(r10, divisor));
  }

  lemma DivideParts(n: nat, den: nat, a: nat, m: nat, r10: nat, t: nat, s: nat)
    requires 0 < den < MODULUS && n == den * a + m && m < den
    requires r10 == m * 10 % MODULUS && r10 == den * t + s && s < den
    ensures Describes(n, den, a, t, TwiceCode(s, den)) <==> m * 10 < MODULUS && s * 2 < MODULUS
  {
    hide Excess, TwiceCode, Code;
    DivideExcess(n, den, a, m, r10, t, s);
    WrappedTenfold(m);
    CodesAgree(s, den);
    if 10 <= t { Monotone(den, 10, t); }
  }

  lemma WrappedTenfold(m: nat)
    ensures m * 10 < MODULUS ==> m * 10 % MODULUS == m * 10
    ensures MODULUS <= m * 10 ==> MODULUS <= m * 10 - m * 10 % MODULUS
  {
  }

  lemma CodesAgree(s: nat, den: nat)
    requires s < den < MODULUS
    ensures TwiceCode(s, den) == Code(2 * s, den) <==> s * 2 < MODULUS
  {
  }

  lemma DivideExcess(n: nat, den: nat, a: nat, m: nat, r10: nat, t: nat, s: nat)
    requires n == den * a + m && r10 == den * t + s
    ensures Excess(n, den, a, t) == 2 * (m * 10 - r10) + 2 * s
  {
    Twice(den, a, t);
  }

  datatype Style = Ceiling | Nearest | Floor

  /** t, a multiple of g, is x/d rounded to a multiple of g in the given style; a tie goes to
      the even multiple. */
  ghost predicate Rounded(style: Style, x: nat, d: nat, t: nat, g: nat) {
    0 < g && t % g == 0 && Off(style, x - t * d, d, g, (t / g) % 2 == 0)
  }

  /** The same for the distance from the rounded number. */
  ghost predicate Off(style: Style, off: int, d: int, g: nat, even: bool) {
    match style
    case Floor => 0 <= off < g * d
    case Ceiling => -(g * d) < off <= 0
    case Nearest =>
      -(g * d) <= 2 * off <= g * d && (2 * off == g * d || 2 * off == -(g * d) ==> even)
  }

  /** Whether the tenths are to be rounded up, from the code alone. */
  predicate TenthsUp(style: Style, q: Quotient) {
    match style
    case Nearest => 2 < q.rounding + q.tenths % 2
    case Ceiling => 0 < q.rounding
    case Floor => false
  }

  predicate UnitsUp(style: Style, q: Quotient) {
    match style
    case Nearest => 5 < q.tenths + if 0 < q.rounding + q.amt % 2 then 1 else 0
    case Ceiling => 0 < q.tenths + q.rounding
    case Floor => false
  }

  lemma RoundTenths(style: Style, num: nat, den: nat, q: Quotient)
    requires Describes(num, den, q.amt, q.tenths, q.rounding)
    ensures Rounded(style, 10 * num, den, 10 * q.amt + q.tenths + (if TenthsUp(style, q) then 1 else 0), 1)
  {
    var t := 10 * q.amt + q.tenths;
    Multiples(den, t);
    TenthsOff(num, den, q);
    assert (t + 1) % 2 != q.tenths % 2;
    hide Excess;
  }

  lemma TenthsOff(num: nat, den: nat, q: Quotient)
    ensures 2 * (10 * num - (10 * q.amt + q.tenths) * den) == Excess(num, den, q.amt, q.tenths)
  {
    assert den * (2 * (10 * q.amt + q.tenths)) == 2 * ((10 * q.amt + q.tenths) * den);
  }

  lemma Multiples(d: nat, t: int)
    ensures (t + 1) * d == t * d + d
    ensures (t + 10) * d == t * d + 10 * d
  {
  }

  lemma RoundUnits(style: Style, num: nat, den: nat, q: Quotient)
    requires Describes(num, den, q.amt, q.tenths, q.rounding)
    ensures Rounded(style, 10 * num, den, 10 * (q.amt + if UnitsUp(style, q) then 1 else 0), 10)
  {
    hide Excess;
    var off := 10 * num - 10 * q.amt * den;
    Multiples(den, 10 * q.amt);
    UnitsOff(num, den, q);
    assert 10 * q.amt / 10 == q.amt && (10 * q.amt + 10) / 10 == q.amt + 1;
  }

  lemma UnitsOff(num: nat, den: nat, q: Quotient)
    requires Describes(num, den, q.amt, q.tenths, q.rounding)
    ensures var off, e := 10 * num - 10 * q.amt * den, Excess(num, den, q.amt, q.tenths);
            && (q.tenths == 0 ==> 2 * off == e)
            && (1 <= q.tenths <= 4 ==> 2 * den <= 2 * off - e <= 8 * den)
            && (q.tenths == 5 ==> 2 * off - e == 10 * den)
            && (6 <= q.tenths ==> 12 * den <= 2 * off - e <= 18 * den)
  {
    TenthsSmall(num, den, q);
    hide Describes, Excess;
    UnitsAndTenths(num, den, q);
    TenthsRange(den, q.tenths);
  }

  lemma UnitsAndTenths(num: nat, den: nat, q: Quotient)
    ensures 2 * (10 * num - 10 * q.amt * den) == Excess(num, den, q.amt, q.tenths) + 2 * (q.tenths * den)
  {
    hide Excess;
    TenthsOff(num, den, q);
    assert (10 * q.amt + q.tenths) * den == 10 * q.amt * den + q.tenths * den;
  }

  lemma TenthsRange(den: nat, t: nat)
    requires 0 < den && t < 10
    ensures t == 0 ==> t * den == 0
    ensures 1 <= t <= 4 ==> den <= t * den <= 4 * den
    ensures t == 5 ==> t * den == 5 * den
    ensures 6 <= t ==> 6 * den <= t * den <= 9 * den
  {
    if 1 <= t <= 4 {
      Monotone(den, 1, t);
      Monotone(den, t, 4);
    }
    if 6 <= t {
      Monotone(den, 6, t);
      Monotone(den, t, 9);
    }
  }

  /** Whether n/d is to be rounded up to units, from the exact remainder. */
  predicate ExactUp(style: Style, n: nat, d: nat)
    requires 0 < d
  {
    match style
    case Nearest => d < 2 * Mod(n, d) || (d == 2 * Mod(n, d) && Div(n, d) % 2 == 1)
    case Ceiling => Mod(n, d) != 0
    case Floor => false
  }

  /** That is the one right choice in every style. */
  lemma UnitsExact(style: Style, n: nat, d: nat, up: bool)
    requires 0 < d
    ensures Rounded(style, 10 * n, d, 10 * (Div(n, d) + if up then 1 else 0), 10)
            <==> up == ExactUp(style, n, d)
  {
    hide Div, Mod;
    var a, m := Div(n, d), Mod(n, d);
    Split(n, d);
    var t := 10 * (a + if up then 1 else 0);
    UnitsDistance(n, d, a, m, up);
    assert t / 10 == a + if up then 1 else 0;
  }

  /** When the rounding code, wrapped or not, calls for what the exact remainder m does: once ten
      times m wraps, Nearest never rounds up, and Ceiling sees nothing left of the three
      remainders whose lower 62 bits are all zero, when the divisor is above 2^63. */
  predicate RoundsRight(style: Style, n: nat, d: nat)
    requires 0 < d
  {
    var m := Mod(n, d);
    match style
    case Nearest => m * 10 < MODULUS || 2 * m < d || (2 * m == d && Div(n, d) % 2 == 0)
    case Ceiling => m == 0 || m % QUARTER != 0 || d <= 2 * QUARTER
    case Floor => true
  }

  const QUARTER := 0x4000_0000_0000_0000

  lemma RoundsRightExact(style: Style, n: nat, d: nat)
    requires 0 < d < MODULUS
    ensures UnitsUp(style, Divide(n, d)) == ExactUp(style, n, d) <==> RoundsRight(style, n, d)
  {
    hide Div, Mod, TwiceCode;
    var m := Mod(n, d);
    Split(n, d);
    match style
    case Nearest =>
      NearestUp(n, d);
      hide UnitsUp, Divide;
      if MODULUS <= m * 10 { WrapsShort(m, d); }
    case Ceiling =>
      CeilingUp(n, d);
      hide UnitsUp, Divide;
      NothingLeft(m);
    case Floor =>
  }

  /** Up to a tie the code compares the wrapped product with five tenths. */
  lemma NearestUp(n: nat, d: nat)
    requires 0 < d
    ensures var r10 := Mod(n, d) * 10 % MODULUS;
            UnitsUp(Nearest, Divide(n, d)) <==> 5 * d < r10 || (5 * d == r10 && Div(n, d) % 2 == 1)
  {
    hide Div, Mod;
    var r10 := Mod(n, d) * 10 % MODULUS;
    var t := Div(r10, d);
    Split(r10, d);
    if t < 5 { Monotone(d, t, 4); }
    if 5 < t { Monotone(d, 6, t); }
  }

  /** A product that wraps falls short of five tenths. */
  lemma WrapsShort(m: nat, d: nat)
    requires m < d && MODULUS <= m * 10
    ensures m * 10 % MODULUS < 5 * d
  {
    if 5 * d < MODULUS {
      assert m * 10 % MODULUS == m * 10 - MODULUS;
    }
  }

  lemma CeilingUp(n: nat, d: nat)
    requires 0 < d
    ensures var r10 := Mod(n, d) * 10 % MODULUS;
            UnitsUp(Ceiling, Divide(n, d)) <==> !(r10 < d && (r10 == 0 || r10 == 2 * QUARTER))
  {
    hide Div, Mod;
    var r10 := Mod(n, d) * 10 % MODULUS;
    var t := Div(r10, d);
    Split(r10, d);
    if 0 < t { Monotone(d, 1, t); }
  }

  /** The products whose lower 63 bits are all zero. */
  lemma NothingLeft(m: nat)
    requires m < MODULUS
    ensures m * 10 % MODULUS == 0 <==> m == 0 || m == 2 * QUARTER
    ensures m * 10 % MODULUS == 2 * QUARTER <==> m == QUARTER || m == 3 * QUARTER
    ensures m % QUARTER == 0 <==> m == 0 || m == QUARTER || m == 2 * QUARTER || m == 3 * QUARTER
  {
    var w := m * 10 / MODULUS;
    assert m * 10 == w * MODULUS + m * 10 % MODULUS && w < 10;
  }

  lemma UnitsDistance(n: nat, d: nat, a: nat, m: nat, up: bool)
    requires n == d * a + m
    ensures 10 * n - 10 * (a + if up then 1 else 0) * d == 10 * m - if up then 10 * d else 0
  {
    Multiples(d, 10 * a);
    assert 10 * (d * a) == 10 * a * d;
  }

  /** A number rounded to tenths that has no tenths is also rounded to units. */
  lemma Coarser(style: Style, x: nat, d: nat, t: nat)
    requires 0 < d && Rounded(style, x, d, t, 1) && t % 10 == 0
    ensures Rounded(style, x, d, t, 10)
  {
  }

  /** Rounding up to the base itself carries into the next power: 1.0 of the next unit is the
      exact value rounded to tenths of that unit, so nothing is rounded twice. */
  lemma Carry(style: Style, x: nat, d: nat, base: nat)
    requires 0 < d && 1000 <= base && style != Floor && Rounded(style, x, d, 10 * base, 10)
    ensures Rounded(style, x, d * base, 10, 1)
  {
    var p := d * base;
    assert (10 * base) * d == 10 * p;
    assert 1000 * d <= p by { Monotone(d, 1000, base); }
  }
}
