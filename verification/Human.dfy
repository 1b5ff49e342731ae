/** Human-readable sizes on the integer path: choose a unit, round once, write the digits. */
module Human {
  import opened Decimal
  import opened HumanRounding
  import opened Wrappers

  datatype Options = Options(style: Style, autoscale: bool, suppressPointZero: bool, base1024: bool,
                             spaceBeforeUnit: bool, si: bool, b: bool)
  {
    function Base(): (r: nat)
      ensures r == 1000 || r == 1024
      ensures r == 1024 <==> base1024
    {
      if base1024 then 1024 else 1000
    }
  }

  const EXPONENT_MAX: nat := 8

  /** What is printed: amt, or amt.tenths with a point, in units of base^exponent. */
  datatype Printed = Printed(amt: nat, point: bool, tenths: nat, exponent: nat)

  function Power(base: nat, e: nat): nat {
    if e == 0 then 1 else Power(base, e - 1) * base
  }

  /** The number of output units is a fraction of 64-bit numbers that can be had exactly. */
  predicate IntegerPath(n: nat, from: nat, to: nat)
    requires 0 < to
  {
    if to <= from then Mod(from, to) == 0 && n * Div(from, to) <= UINT64_MAX
    else from != 0 && Mod(to, from) == 0
  }

  /** That number as numerator and denominator. */
  function Fraction(n: nat, from: nat, to: nat): (nat, nat)
    requires 0 < to && IntegerPath(n, from, to)
  {
    if to <= from then (n * Div(from, to), 1) else (n, Div(to, from))
  }

  lemma FractionIs(n: nat, from: nat, to: nat)
    requires 0 < to && IntegerPath(n, from, to)
    ensures var f := Fraction(n, from, to); 0 < f.1 && f.0 * to == n * from * f.1
  {
    hide Div, Mod;
    if to <= from {
      Split(from, to);
      assert n * Div(from, to) * to == n * (to * Div(from, to));
    } else {
      Split(to, from);
      assert n * (from * Div(to, from)) == n * from * Div(to, from);
      DivisorSize(to, from);
    }
  }

  /** The two products of the first division do not wrap. */
  predicate NoWrap(n: nat, from: nat, to: nat)
    requires 0 < to
  {
    from < to && from != 0 && Div(to, from) != 0 ==>
      var d := Div(to, from);
      Mod(n, d) * 10 < MODULUS && Mod(Mod(n, d) * 10, d) * 2 < MODULUS
  }

  /** A product can only wrap when there are fewer than ten units. */
  lemma WrapSmall(n: nat, from: nat, to: nat)
    requires n < MODULUS && 0 < from < to && Div(to, from) != 0 && !NoWrap(n, from, to)
    ensures Divide(n, Div(to, from)).amt == Div(n, Div(to, from)) < 10
  {
    hide Div, Mod;
    var d := Div(to, from);
    Split(n, d);
    Split(Mod(n, d) * 10, d);
    if 10 <= Div(n, d) { Monotone(d, 10, Div(n, d)); }
  }

  lemma WrapCheck(n: nat, m: nat)
    requires 0 < m && n < MODULUS
    ensures Div(n * m % MODULUS, m) == n <==> n * m <= UINT64_MAX
  {
    hide Div, Mod;
    var a := n * m % MODULUS;
    Split(a, m);
    var q, r := Div(a, m), Mod(a, m);
    if n * m <= UINT64_MAX {
      assert a == n * m;
      if q < n { Monotone(m, q + 1, n); }
      if n < q { Monotone(m, n + 1, q); }
    } else {
      assert a < n * m;
      if n <= q { Monotone(m, n, q); }
    }
  }

  /** Into output units, without loss, or not at all. */
  method Adjust(n: nat, from: nat, to: nat) returns (r: Option<Quotient>)
    requires n <= UINT64_MAX && from <= UINT64_MAX && 0 < to <= UINT64_MAX
    ensures r.Some? <==> IntegerPath(n, from, to)
    ensures r.Some? && NoWrap(n, from, to) ==>
              var (num, den) := Fraction(n, from, to);
              Describes(num, den, r.value.amt, r.value.tenths, r.value.rounding)
    ensures r.Some? && from < to ==> 0 < Div(to, from) && r.value == Divide(n, Div(to, from))
    ensures r.Some? ==> r.value.amt <= UINT64_MAX
    ensures r.Some? && r.value.amt == UINT64_MAX ==> r.value.tenths == r.value.rounding == 0
    ensures r.Some? ==> r.value.tenths < 10 && r.value.rounding < 4
  {
    hide Div, Mod, Describes;
    if to <= from {
      if Mod(from, to) == 0 {
        var multiplier := Div(from, to);
        Split(from, to);
        WrapCheck(n, multiplier);
        var amt := n * multiplier % MODULUS;
        if Div(amt, multiplier) == n {
          Whole(amt);
          return Some(Quotient(amt, 0, 0));
        }
      }
    } else if from != 0 && Mod(to, from) == 0 {
      var divisor := Div(to, from);
      DivisorSize(to, from);
      DivideExact(n, divisor);
      SmallerQuotient(n, divisor);
      var q := Divide(n, divisor);
      DivideBounds(n, divisor);
      return Some(q);
    }
    return None;
  }

  lemma Whole(amt: nat)
    ensures Describes(amt, 1, amt, 0, 0)
  {
  }

  lemma DivideBounds(n: nat, d: nat)
    requires 0 < d
    ensures Divide(n, d).tenths < 10 && Divide(n, d).rounding < 4
  {
    hide Div, Mod;
    Split(n, d);
    Bounded(Mod(n, d) * 10 % MODULUS, d);
  }

  lemma DivisorSize(to: nat, from: nat)
    requires 0 < from < to && Mod(to, from) == 0
    ensures 2 <= Div(to, from) <= to
  {
    hide Div, Mod;
    Split(to, from);
    var d := Div(to, from);
    if d < 2 { Monotone(from, d, 1); }
    Monotone(d, 1, from);
  }

  lemma SmallerQuotient(n: nat, d: nat)
    requires 2 <= d && n <= UINT64_MAX
    ensures Div(n, d) < UINT64_MAX
  {
    hide Div, Mod;
    Split(n, d);
    var q := Div(n, d);
    if 0 < q { Monotone(q, 2, d); }
  }

  /** Repeated division by the base until the number is below it, for autoscaling. */
  method Autoscale(q0: Quotient, base: nat, ghost num: nat, ghost den: nat)
    returns (q: Quotient, exponent: nat)
    requires q0.tenths < 10 && q0.rounding < 4 && (base == 1000 || base == 1024)
    ensures q.tenths < 10 && q.rounding < 4
    ensures Describes(num, den, q0.amt, q0.tenths, q0.rounding)
            ==> Describes(num, den * Power(base, exponent), q.amt, q.tenths, q.rounding)
    ensures exponent <= EXPONENT_MAX && (q.amt < base || exponent == EXPONENT_MAX)
    ensures 0 < exponent <==> base <= q0.amt
    ensures 0 < exponent ==> 0 < q.amt < q0.amt
    ensures exponent == 0 ==> q == q0
  {
    hide Describes, Scale;
    q := q0;
    exponent := 0;
    assert den * Power(base, 0) == den;
    while base <= q.amt && exponent < EXPONENT_MAX
      invariant exponent <= EXPONENT_MAX && (base <= q0.amt ==> 0 < q.amt)
      invariant exponent == 0 ==> q == q0
      invariant 0 < exponent ==> base <= q0.amt && q.amt < q0.amt
      invariant q.tenths < 10 && q.rounding < 4
      invariant Describes(num, den, q0.amt, q0.tenths, q0.rounding)
                ==> Describes(num, den * Power(base, exponent), q.amt, q.tenths, q.rounding)
      decreases q.amt
    {
      if Describes(num, den, q0.amt, q0.tenths, q0.rounding) {
        ScaleDescribes(num, den * Power(base, exponent), base, q);
      }
      ScaledAmount(q, base);
      PowerStep(den, base, exponent);
      q := Scale(q, base);
      exponent := exponent + 1;
    }
  }

  lemma ScaledAmount(q: Quotient, base: nat)
    requires base == 1000 || base == 1024
    requires q.tenths < 10 && q.rounding < 4
    ensures base <= q.amt ==> 0 < Scale(q, base).amt < q.amt
    ensures Scale(q, base).tenths < 10 && Scale(q, base).rounding < 4
  {
    hide Scale;
    var a, m, t, s := ScaleParts(q, base);
  }

  lemma PowerStep(den: nat, base: nat, e: nat)
    ensures den * Power(base, e) * base == den * Power(base, e + 1)
  {
  }

  /** The number printed is the exact one, num/den, rounded once in the unit that shows. */
  ghost predicate Faithful(style: Style, num: nat, den: nat, base: nat, p: Printed) {
    && p.tenths < 10 && (!p.point ==> p.tenths == 0)
    && Rounded(style, 10 * num, den * Power(base, p.exponent), 10 * p.amt + p.tenths,
               if p.point then 1 else 10)
  }

  /** The unit fits the number, and a point is shown for one digit before it only. */
  ghost predicate WellChosen(o: Options, p: Printed) {
    && p.amt <= UINT64_MAX
    && (p.point ==> 0 < p.exponent && p.amt < 10 && (o.suppressPointZero ==> p.tenths != 0))
    && (0 < p.exponent && p.amt < 10 && !p.point ==> o.suppressPointZero)
    && (if o.autoscale then
          && p.exponent <= EXPONENT_MAX
          && (p.exponent < EXPONENT_MAX ==> p.amt < o.Base())
          && (0 < p.exponent ==> 0 < p.amt)
        else p.exponent == 0)
  }

  /** After the first rounding: a shown tenth, or a number of units that is final, or the
      quotient as it was. */
  ghost predicate FirstRounded(o: Options, num: nat, d: nat, q0: Quotient, q: Quotient, p: Printed,
                               settled: bool) {
    var exact := Describes(num, d, q0.amt, q0.tenths, q0.rounding);
    if p.point then
      && q == Quotient(p.amt, 0, 0) && p.amt < 10 && p.tenths < 10
      && (o.suppressPointZero ==> p.tenths != 0)
      && (exact ==> Rounded(o.style, 10 * num, d, 10 * p.amt + p.tenths, 1))
    else
      && p.tenths == 0
      && if settled then
           q == Quotient(p.amt, 0, 0) && (exact ==> Rounded(o.style, 10 * num, d, 10 * p.amt, 10))
         else q == q0
  }

  /** Rounds to tenths when one digit is left before the point. */
  method RoundFirst(q0: Quotient, o: Options, ghost num: nat, ghost d: nat)
    returns (q: Quotient, p: Printed, ghost settled: bool)
    requires q0.tenths < 10 && q0.rounding < 4 && q0.amt < 10 && 0 < d
    ensures FirstRounded(o, num, d, q0, q, p, settled)
    ensures q0.amt <= q.amt <= q0.amt + 1
    ensures q.amt < 10 && !p.point ==> o.suppressPointZero
  {
    hide Describes, Rounded;
    ghost var exact := Describes(num, d, q0.amt, q0.tenths, q0.rounding);
    if exact { RoundTenths(o.style, num, d, q0); }
    q := q0;
    settled := false;
    var point, digit := false, 0;
    if TenthsUp(o.style, q) {
      q := q.(tenths := q.tenths + 1, rounding := 0);
      settled := true;
      if q.tenths == 10 {
        q := q.(amt := q.amt + 1, tenths := 0);
      }
    }
    if q.amt < 10 && (q.tenths != 0 || !o.suppressPointZero) {
      point, digit := true, q.tenths;
      q := q.(tenths := 0, rounding := 0);
    } else if settled {
      if exact { Coarser(o.style, 10 * num, d, 10 * q.amt); }
    }
    p := Printed(q.amt, point, digit, 0);
  }

  /** Rounds to tenths when one digit is left before the point, else to units, with a carry
      into the next power when rounding reaches the base. */
  method Round(q0: Quotient, exponent0: nat, o: Options, ghost num: nat, ghost den: nat)
    returns (p: Printed)
    requires 0 < den && q0.tenths < 10 && q0.rounding < 4
    requires q0.amt <= UINT64_MAX && (q0.amt == UINT64_MAX ==> q0.tenths == q0.rounding == 0)
    requires o.autoscale ==> exponent0 <= EXPONENT_MAX && (q0.amt < o.Base() || exponent0 == EXPONENT_MAX)
    requires 0 < exponent0 ==> o.autoscale && 0 < q0.amt < UINT64_MAX
    ensures WellChosen(o, p) && p.tenths < 10
    ensures Describes(num, den * Power(o.Base(), exponent0), q0.amt, q0.tenths, q0.rounding)
            ==> Faithful(o.style, num, den, o.Base(), p)
    ensures exponent0 == 0 && q0.amt < 10 ==>
              p == Printed(q0.amt + if UnitsUp(o.style, q0) then 1 else 0, false, 0, 0)
  {
    hide Describes, Rounded, Power;
    var base := o.Base();
    ghost var d := den * Power(base, exponent0);
    PositiveDenominator(den, base, exponent0);
    ghost var exact := Describes(num, d, q0.amt, q0.tenths, q0.rounding);
    var q, exponent := q0, exponent0;
    p := Printed(q.amt, false, 0, 0);
    ghost var settled := false;
    if 0 < exponent && q.amt < 10 {
      q, p, settled := RoundFirst(q0, o, num, d);
    }
    if !p.point && !settled && exact { RoundUnits(o.style, num, d, q); }
    p := p.(amt := q.amt, exponent := exponent);
    if UnitsUp(o.style, q) {
      p := p.(amt := q.amt + 1);
      if o.autoscale && p.amt == base && exponent < EXPONENT_MAX {
        PowerStep(den, base, exponent);
        if exact {
          Carry(o.style, 10 * num, d, base);
          if o.suppressPointZero { Coarser(o.style, 10 * num, d * base, 10); }
        }
        p := Printed(1, !o.suppressPointZero, 0, exponent + 1);
      }
    }
  }

  lemma PositiveDenominator(den: nat, base: nat, e: nat)
    requires 0 < den && 0 < base
    ensures 0 < den * Power(base, e)
  {
    PowerPositive(base, e);
  }

  const POWER_LETTER: string := "?KMGTPEZY"
  const LONGEST_HUMAN_READABLE: nat := 651
  const SUFFIX_LENGTH_MAX: nat := 3

  /** The digits, and the point with one more when it is shown. */
  function Text(p: Printed): string
    requires p.tenths < 10
  {
    Numeral(p.amt) + if p.point then ['.', Digit(p.tenths)] else []
  }

  function Suffix(o: Options, exponent: nat): string
    requires exponent <= EXPONENT_MAX
  {
    if !o.si then ""
    else
      (if (exponent != 0 || o.b) && o.spaceBeforeUnit then " " else "")
      + (if exponent == 0 then "" else if !o.base1024 && exponent == 1 then "k" else [POWER_LETTER[exponent]])
      + (if o.b then (if o.base1024 && exponent != 0 then "iB" else "B") else "")
  }

  /** The letters and what stands around them, in plain text. */
  lemma SuffixIs(o: Options, exponent: nat)
    requires exponent <= EXPONENT_MAX
    ensures var letter := match exponent
                          case 0 => ""
                          case 1 => if o.base1024 then "K" else "k"
                          case 2 => "M" case 3 => "G" case 4 => "T" case 5 => "P"
                          case 6 => "E" case 7 => "Z" case _ => "Y";
            var bytes := if !o.b then "" else if o.base1024 && 0 < exponent then "iB" else "B";
            var all := letter + bytes;
            Suffix(o, exponent) == if !o.si then "" else if o.spaceBeforeUnit && all != "" then " " + all else all
  {
    hide Power;
  }

  /** The least power of the base that is not below an output block size. */
  ghost predicate LeastPower(to: nat, base: nat, e: nat) {
    to <= Power(base, e) && forall l | 0 <= l < e :: Power(base, l) < to
  }

  /** The exponent shown for an output block size. Beyond the sixth power of the base the products
      wrap, and it is the seventh or the last whatever the size. */
  ghost predicate BlockUnit(to: nat, base: nat, e: nat) {
    if to <= Power(base, 6) then e <= 6 && LeastPower(to, base, e)
    else e == if base == 1000 && to <= 3_875_820_019_684_212_736 then 7 else 8
  }

  /** It is the right one up to the sixth power, and in powers of 1000 a little further. */
  lemma BlockUnitExact(to: nat, base: nat, e: nat)
    requires 0 < to <= UINT64_MAX && (base == 1000 || base == 1024) && BlockUnit(to, base, e)
    ensures LeastPower(to, base, e)
            <==> to <= Power(base, 6) || (base == 1000 && to <= 3_875_820_019_684_212_736)
  {
    hide Power;
    PowerValues(base);
    PowerNext(base, 6);
    if Power(base, 6) < to {
      forall l | 0 <= l <= 6 ensures Power(base, l) < to {
        if l < 6 { PowerGrows(base, l, 6); }
      }
      if e == 8 { assert to <= Power(base, 7); }
    }
  }

  /** Blocks of 2^61 bytes are shown as yobibytes. */
  lemma BlockUnitWraps()
    ensures forall e :: BlockUnit(0x2000_0000_0000_0000, 1024, e) <==> e == 8
    ensures !LeastPower(0x2000_0000_0000_0000, 1024, 8)
  {
    PowerValues(1024);
    PowerNext(1024, 6);
  }

  /** The exponent of an output block size, in wrapping 64-bit arithmetic. */
  method BlockExponent(to: nat, base: nat) returns (exponent: nat)
    requires 0 < to <= UINT64_MAX && (base == 1000 || base == 1024)
    ensures exponent <= EXPONENT_MAX
    ensures BlockUnit(to, base, exponent)
  {
    hide Power;
    exponent := 0;
    var power := 1;
    PowerNext(base, 0);
    while power < to && exponent < EXPONENT_MAX
      invariant exponent <= EXPONENT_MAX
      invariant exponent <= 6 ==> power == Power(base, exponent)
      invariant forall e | 0 <= e < exponent && e <= 6 :: Power(base, e) < to
      invariant exponent == 8 ==> (if base == 1000 then 3_875_820_019_684_212_736 else 0) < to
      invariant exponent == 7 ==> power == if base == 1000 then 3_875_820_019_684_212_736 else 0
      decreases EXPONENT_MAX - exponent
    {
      PowerNext(base, exponent);
      if exponent < 6 { PowerFits(base, exponent + 1); }
      if exponent == 6 { PowerValues(base); }
      power := power * base % MODULUS;
      exponent := exponent + 1;
    }
    if exponent < 6 { PowerGrows(base, exponent, 6); }
    assert exponent <= 6 ==> LeastPower(to, base, exponent);
  }

  lemma PowerNext(base: nat, e: nat)
    ensures Power(base, 0) == 1 && Power(base, e + 1) == Power(base, e) * base
  {
  }

  lemma PowerFits(base: nat, e: nat)
    requires (base == 1000 || base == 1024) && e <= 6
    ensures Power(base, e) <= UINT64_MAX
  {
    PowerValues(base);
  }

  lemma PowerValues(base: nat)
    requires base == 1000 || base == 1024
    ensures Power(base, 0) == 1 && Power(base, 1) == base
    ensures base == 1024 ==> Power(base, 2) == 0x10_0000 && Power(base, 3) == 0x4000_0000
                             && Power(base, 4) == 0x100_0000_0000 && Power(base, 5) == 0x4_0000_0000_0000
                             && Power(base, 6) == 0x1000_0000_0000_0000
    ensures base == 1000 ==> Power(base, 2) == 1000_000 && Power(base, 3) == 1000_000_000
                             && Power(base, 4) == 1000_000_000_000 && Power(base, 5) == 1000_000_000_000_000
                             && Power(base, 6) == 1000_000_000_000_000_000
  {
    assert Power(base, 2) == Power(base, 1) * base;
    assert Power(base, 3) == Power(base, 2) * base;
    assert Power(base, 4) == Power(base, 3) * base;
    assert Power(base, 5) == Power(base, 4) * base;
    assert Power(base, 6) == Power(base, 5) * base;
  }

  lemma {:induction false} PowerGrows(base: nat, a: nat, b: nat)
    requires a < b && (base == 1000 || base == 1024)
    ensures 0 < Power(base, a) < Power(base, b)
    decreases b
  {
    PowerPositive(base, b - 1);
    if a < b - 1 { PowerGrows(base, a, b - 1); }
  }

  lemma {:induction false} PowerPositive(base: nat, e: nat)
    requires 0 < base
    ensures 0 < Power(base, e)
  {
    if 0 < e { PowerPositive(base, e - 1); }
  }

  /** Puts a string into the buffer from position at on. */
  method Store(buf: array<char>, at: nat, s: string) returns (end: nat)
    requires at + |s| <= buf.Length
    modifies buf
    ensures end == at + |s| && buf[at..end] == s && buf[..at] == old(buf[..at])
  {
    end := at;
    var k := 0;
    while k < |s|
      invariant k <= |s| && end == at + k && buf[at..end] == s[..k] && buf[..at] == old(buf[..at])
    {
      buf[end] := s[k];
      end := end + 1;
      k := k + 1;
    }
  }

  /** The rounding code is right about the first division, if there is one. */
  predicate DivisionRight(style: Style, n: nat, from: nat, to: nat)
    requires 0 < to
  {
    from < to && from != 0 && Div(to, from) != 0 ==> RoundsRight(style, n, Div(to, from))
  }

  /** When a product wraps, the number of units printed is the exact one rounded exactly when the
      code is right all the same. */
  lemma WrappedExact(o: Options, n: nat, from: nat, to: nat, p: Printed)
    requires n < MODULUS && 0 < from < to < MODULUS && Div(to, from) != 0 && !NoWrap(n, from, to)
    requires IntegerPath(n, from, to)
    requires var q := Divide(n, Div(to, from));
             p == Printed(q.amt + if UnitsUp(o.style, q) then 1 else 0, false, 0, 0)
    ensures var (num, den) := Fraction(n, from, to);
            Faithful(o.style, num, den, o.Base(), p) <==> DivisionRight(o.style, n, from, to)
  {
    hide Div, Mod, Rounded, UnitsUp, ExactUp, NoWrap, RoundsRight, Divide;
    var d := Div(to, from);
    AtZero(d, o.Base());
    UnitsExact(o.style, n, d, UnitsUp(o.style, Divide(n, d)));
    QuotientBelow(to, from);
    RoundsRightExact(o.style, n, d);
    WrapSmall(n, from, to);
  }

  lemma QuotientBelow(a: nat, b: nat)
    requires 0 < b
    ensures Div(a, b) <= a
  {
    hide Div, Mod;
    Split(a, b);
    Monotone(Div(a, b) + 1, 1, b);
  }

  /** It always is when none does. */
  lemma UnwrappedRight(style: Style, n: nat, from: nat, to: nat)
    requires 0 < to && NoWrap(n, from, to)
    ensures DivisionRight(style, n, from, to)
  {
    hide Div, Mod;
  }

  /** It need not be: three quarters of a unit print as 0 when rounded to nearest. */
  lemma WrapMisrounds()
    ensures var n, to := 0x6000_0000_0000_0000, 0x8000_0000_0000_0000;
            && IntegerPath(n, 1, to) && !NoWrap(n, 1, to) && Divide(n, to) == Quotient(0, 1, 2)
            && !UnitsUp(Nearest, Divide(n, to)) && ExactUp(Nearest, n, to)
            && !DivisionRight(Nearest, n, 1, to)
  {
  }

  /** The whole of the integer path: the text lies in the buffer between the two positions
      returned, ends with a NUL, and never runs past either end. None stands for the floating
      point path. */
  method HumanReadable(n: nat, buf: array<char>, o: Options, from: nat, to: nat)
    returns (r: Option<(nat, nat)>, p: Printed, unit: nat)
    requires n <= UINT64_MAX && from <= UINT64_MAX && 0 < to <= UINT64_MAX
    requires LONGEST_HUMAN_READABLE + (if o.spaceBeforeUnit && o.b then 1 else 0) <= buf.Length
    modifies buf
    ensures r.Some? <==> IntegerPath(n, from, to)
    ensures r.Some? ==>
              && r.value.0 <= r.value.1 < buf.Length && p.tenths < 10 && unit <= EXPONENT_MAX
              && buf[r.value.0..r.value.1] == Text(p) + Suffix(o, unit) && buf[r.value.1] == 0 as char
              && (if o.autoscale then unit == p.exponent else o.si ==> BlockUnit(to, o.Base(), unit))
    ensures r.Some? ==>
              var (num, den) := Fraction(n, from, to);
              && WellChosen(o, p)
              && (Faithful(o.style, num, den, o.Base(), p)
                  <==> DivisionRight(o.style, n, from, to))
  {
    hide Div, Mod, Describes, Rounded, Power, NoWrap, Faithful, Numeral, UnitsUp, DivisionRight, Divide,
         BlockUnit;
    p, unit := Printed(0, false, 0, 0), 0;
    var adjusted := Adjust(n, from, to);
    if adjusted.None? { return None, p, unit; }
    FractionIs(n, from, to);
    ghost var f := Fraction(n, from, to);
    AtZero(f.1, o.Base());
    var q, exponent := adjusted.value, 0;
    if o.autoscale {
      q, exponent := Autoscale(q, o.Base(), f.0, f.1);
    }
    p := Round(q, exponent, o, f.0, f.1);
    if !NoWrap(n, from, to) {
      NoWrapCases(n, from, to);
      WrapSmall(n, from, to);
      WrappedExact(o, n, from, to, p);
    } else {
      UnwrappedRight(o.style, n, from, to);
    }
    var start, end := Write(buf, o, p, to);
    unit := end.1;
    r := Some((start, end.0));
  }

  lemma NoWrapCases(n: nat, from: nat, to: nat)
    requires 0 < to && !NoWrap(n, from, to)
    ensures 0 < from < to && Div(to, from) != 0
  {
  }

  lemma AtZero(den: nat, base: nat)
    ensures den * Power(base, 0) == den
  {
  }

  /** Digits backwards from the place of the suffix, then the suffix forwards from there. */
  method Write(buf: array<char>, o: Options, p: Printed, to: nat)
    returns (start: nat, end: (nat, nat))
    requires LONGEST_HUMAN_READABLE + (if o.spaceBeforeUnit && o.b then 1 else 0) <= buf.Length
    requires p.tenths < 10 && p.amt <= UINT64_MAX && 0 < to <= UINT64_MAX
    requires o.autoscale ==> p.exponent <= EXPONENT_MAX
    modifies buf
    ensures start <= end.0 < buf.Length && end.1 <= EXPONENT_MAX
    ensures buf[start..end.0] == Text(p) + Suffix(o, end.1) && buf[end.0] == 0 as char
    ensures if o.autoscale then end.1 == p.exponent
            else o.si ==> BlockUnit(to, o.Base(), end.1)
  {
    hide Power, Text, Suffix, BlockUnit;
    var psuffix := LONGEST_HUMAN_READABLE - 1 - SUFFIX_LENGTH_MAX;
    var unit := 0;
    if o.autoscale {
      unit := p.exponent;
    } else if o.si {
      unit := BlockExponent(to, o.Base());
    }
    start := WriteText(buf, p, psuffix);
    SuffixFits(o, unit);
    var e := Store(buf, psuffix, Suffix(o, unit));
    assert buf[start..psuffix] == buf[..psuffix][start..] == Text(p);
    buf[e] := 0 as char;
    assert buf[start..e] == buf[start..psuffix] + buf[psuffix..e];
    end := (e, unit);
  }

  /** The text of p, ending just before position end. */
  method WriteText(buf: array<char>, p: Printed, end: nat) returns (start: nat)
    requires p.tenths < 10 && p.amt <= UINT64_MAX && 22 <= end <= buf.Length
    modifies buf
    ensures start <= end && buf[start..end] == Text(p)
  {
    hide Numeral;
    TwentyDigits(p.amt);
    start := end;
    if p.point {
      buf[start - 1] := Digit(p.tenths);
      buf[start - 2] := '.';
      start := start - 2;
    }
    ghost var digitsEnd, point := start, buf[start..end];
    start := WriteDigits(buf, start, p.amt);
    assert buf[digitsEnd..end] == buf[digitsEnd..][..end - digitsEnd] == point;
    assert buf[start..end] == buf[start..digitsEnd] + buf[digitsEnd..end];
  }

  lemma SuffixFits(o: Options, exponent: nat)
    requires exponent <= EXPONENT_MAX
    ensures |Suffix(o, exponent)| <= SUFFIX_LENGTH_MAX + if o.spaceBeforeUnit && o.b then 1 else 0
  {
  }

  lemma Power10Plus(k: nat)
    ensures Power10(k + 4) == 1_0000 * Power10(k)
  {
    assert Power10(k + 4) == 10 * Power10(k + 3);
    assert Power10(k + 2) == 10 * Power10(k + 1);
  }

  lemma TwentyDigits(n: nat)
    requires n <= UINT64_MAX
    ensures |Numeral(n)| <= 20
  {
    Power10Plus(0);
    Power10Plus(4);
    Power10Plus(8);
    Power10Plus(12);
    Power10Plus(16);
    NumeralLength(n, 20);
  }
}
