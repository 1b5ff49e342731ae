/** Numbers with a size suffix: scaling that saturates, and the reading of a printed size. */
module Xstrtol {
  import opened Decimal
  import H = Human
  import R = HumanRounding
  import opened Wrappers

  function Saturate(n: nat): nat {
    if n <= UINT64_MAX then n else UINT64_MAX
  }

  lemma DivisionGuard(x: nat, f: nat)
    requires 0 < f
    ensures R.Div(UINT64_MAX, f) < x <==> UINT64_MAX < x * f
  {
    hide R.Div, R.Mod;
    R.Split(UINT64_MAX, f);
    var q := R.Div(UINT64_MAX, f);
    if q < x { R.Monotone(f, q + 1, x); } else { R.Monotone(f, x, q); }
  }

  /** One multiplication, saturating. */
  method BkmScale(x0: nat, scaleFactor: nat) returns (x: nat, overflow: bool)
    requires x0 <= UINT64_MAX && 0 < scaleFactor
    ensures x == Saturate(x0 * scaleFactor) && (overflow <==> UINT64_MAX < x0 * scaleFactor)
  {
    DivisionGuard(x0, scaleFactor);
    if R.Div(UINT64_MAX, scaleFactor) < x0 { return UINT64_MAX, true; }
    return x0 * scaleFactor, false;
  }

  /** Several of them: as if the whole product had been formed and then cut. */
  method BkmScaleByPower(x0: nat, base: nat, power0: nat) returns (x: nat, overflow: bool)
    requires x0 <= UINT64_MAX && 2 <= base
    ensures x == Saturate(x0 * H.Power(base, power0))
    ensures overflow <==> UINT64_MAX < x0 * H.Power(base, power0)
  {
    hide H.Power;
    x, overflow := x0, false;
    var power: nat := power0;
    H.AtZero(x0, base);
    while power != 0
      invariant power <= power0
      invariant x == Saturate(x0 * H.Power(base, power0 - power))
      invariant overflow <==> UINT64_MAX < x0 * H.Power(base, power0 - power)
      decreases power
    {
      ghost var true' := x0 * H.Power(base, power0 - power);
      H.PowerStep(x0, base, power0 - power);
      R.Monotone(base, if UINT64_MAX < true' then UINT64_MAX + 1 else 0, true');
      var over: bool;
      x, over := BkmScale(x, base);
      overflow := overflow || over;
      power := power - 1;
    }
  }

  /** What strtoull makes of the start of a string: the number its digits stand for, whatever
      its size, and how many characters it takes; or no number at all when end is 0. */
  datatype Number = Number(n: nat, end: nat, otherError: bool)

  datatype Parsed = Invalid | Parsed(val: nat, overflow: bool, badSuffix: bool, end: nat)

  const NUL: char := 0 as char

  function CharAt(s: string, i: nat): char {
    if i < |s| then s[i] else NUL
  }

  predicate IsSpace(c: char) {
    c == ' ' || ('\t' <= c <= '\r')
  }

  predicate Negative(s: string) {
    s != [] && (s[0] == '-' || (IsSpace(s[0]) && Negative(s[1..])))
  }

  /** The power of the base a suffix letter stands for. */
  function SuffixPower(c: char): Option<nat> {
    match c
    case 'k' => Some(1) case 'K' => Some(1)
    case 'm' => Some(2) case 'M' => Some(2)
    case 'g' => Some(3) case 'G' => Some(3)
    case 't' => Some(4) case 'T' => Some(4)
    case 'P' => Some(5)
    case 'E' => Some(6)
    case 'Z' => Some(7)
    case 'Y' => Some(8)
    case _ => None
  }

  /** The base, and the length of the whole suffix, when a second suffix may follow. */
  function SecondSuffix(s: string, at: nat, valid: string): (nat, nat) {
    if '0' !in valid then (1024, 1)
    else if CharAt(s, at + 1) == 'i' && CharAt(s, at + 2) == 'B' then (1024, 3)
    else if CharAt(s, at + 1) == 'B' || CharAt(s, at + 1) == 'D' then (1000, 2)
    else (1024, 1)
  }

  /** The factor a suffix multiplies by, and its length. */
  function Factor(s: string, at: nat, valid: string): Option<(nat, nat)> {
    var c := CharAt(s, at);
    if SuffixPower(c).Some? then
      var (base, len) := SecondSuffix(s, at, valid);
      Some((H.Power(base, SuffixPower(c).value), len))
    else if c == 'b' then Some((512, 1))
    else if c == 'B' then Some((1024, 1))
    else if c == 'c' then Some((1, 1))
    else if c == 'w' then Some((2, 1))
    else None
  }

  /** The outcome for a number of any size: with a suffix, the product of the number itself and
      the factor, cut at the maximum; an overflow is reported exactly when it was cut. */
  function Outcome(s: string, st: Number, valid: Option<string>): Parsed {
    if Negative(s) then Invalid
    else if st.end == 0 && (valid.None? || s == [] || s[0] !in valid.value) then Invalid
    else if st.end != 0 && st.n <= UINT64_MAX && st.otherError then Invalid
    else
      var n := if st.end == 0 then 1 else st.n;
      if valid.None? || |s| <= st.end then Parsed(Saturate(n), UINT64_MAX < n, false, st.end)
      else if s[st.end] !in valid.value || Factor(s, st.end, valid.value).None? then
        Parsed(Saturate(n), UINT64_MAX < n, true, st.end)
      else
        var (factor, len) := Factor(s, st.end, valid.value).value;
        Parsed(Saturate(n * factor), UINT64_MAX < n * factor, CharAt(s, st.end + len) != NUL, st.end + len)
  }

  /** Scaling a number that has been cut already gives what the number itself would give. */
  lemma SaturateTwice(n: nat, f: nat)
    requires 0 < f
    ensures Saturate(Saturate(n) * f) == Saturate(n * f)
    ensures UINT64_MAX < n * f <==> UINT64_MAX < n || UINT64_MAX < Saturate(n) * f
  {
    R.Monotone(f, if n <= UINT64_MAX then n else UINT64_MAX + 1, n);
    assert UINT64_MAX < MODULUS * f by { R.Monotone(UINT64_MAX + 1, 1, f); }
    assert UINT64_MAX <= UINT64_MAX * f by { R.Monotone(UINT64_MAX, 1, f); }
  }

  /** s holds no NUL, as a C string. */
  method Xstrtol(s: string, st: Number, valid: Option<string>) returns (r: Parsed)
    requires st.end <= |s| && NUL !in s
    ensures r == Outcome(s, st, valid)
  {
    hide H.Power, Saturate, Factor;
    var q := 0;
    while q < |s| && IsSpace(s[q])
      invariant q <= |s| && Negative(s) == Negative(s[q..])
      decreases |s| - q
    {
      assert s[q..][1..] == s[q + 1..];
      q := q + 1;
    }
    assert q == |s| ==> s[q..] == [];
    if CharAt(s, q) == '-' { return Invalid; }
    assert !Negative(s);
    var tmp, overflow := Saturate(st.n), false;
    if st.end == 0 {
      if valid.None? || s == [] || s[0] !in valid.value { return Invalid; }
      tmp := 1;
    } else if UINT64_MAX < st.n {
      overflow := true;
    } else if st.otherError {
      return Invalid;
    }
    ghost var n := if st.end == 0 then 1 else st.n;
    SaturateFacts(n);
    if valid.None? || CharAt(s, st.end) == NUL {
      return Parsed(tmp, overflow, false, st.end);
    }
    if s[st.end] !in valid.value {
      return Parsed(tmp, overflow, true, st.end);
    }
    var known, over, suffixes;
    known, tmp, over, suffixes := ScaleBySuffix(s, st.end, valid.value, tmp, n);
    if !known {
      return Parsed(tmp, overflow, true, st.end);
    }
    r := Parsed(tmp, overflow || over, CharAt(s, st.end + suffixes) != NUL, st.end + suffixes);
  }

  /** Scales a number that may have been cut by the suffix at a position, if there is one. */
  method ScaleBySuffix(s: string, at: nat, valid: string, tmp: nat, ghost n: nat)
    returns (known: bool, x: nat, overflow: bool, suffixes: nat)
    requires at < |s| && tmp == Saturate(n)
    ensures known <==> Factor(s, at, valid).Some?
    ensures !known ==> x == tmp
    ensures known ==>
              var (factor, len) := Factor(s, at, valid).value;
              && suffixes == len && x == Saturate(n * factor)
              && (UINT64_MAX < n || overflow <==> UINT64_MAX < n * factor)
  {
    hide H.Power, Saturate;
    SaturateFacts(n);
    var c := s[at];
    known, x, overflow, suffixes := true, tmp, false, 1;
    if SuffixPower(c).Some? {
      var base, len := SecondSuffix(s, at, valid).0, SecondSuffix(s, at, valid).1;
      H.PowerPositive(base, SuffixPower(c).value);
      SaturateTwice(n, H.Power(base, SuffixPower(c).value));
      suffixes := len;
      x, overflow := BkmScaleByPower(tmp, base, SuffixPower(c).value);
    } else if c == 'b' {
      SaturateTwice(n, 512);
      x, overflow := BkmScale(tmp, 512);
    } else if c == 'B' {
      SaturateTwice(n, 1024);
      x, overflow := BkmScale(tmp, 1024);
    } else if c == 'c' {
    } else if c == 'w' {
      SaturateTwice(n, 2);
      x, overflow := BkmScale(tmp, 2);
    } else {
      known := false;
    }
  }

  lemma SaturateFacts(n: nat)
    ensures Saturate(n) <= UINT64_MAX && (UINT64_MAX < n ==> Saturate(n) == UINT64_MAX) && Saturate(1) == 1
  {
  }

  const SIZE_SUFFIXES: string := "0kKMGTPEZY"

  /** A size, or an addition to an estimate in wrapping 64-bit arithmetic. */
  function ParseSize(str: string, st: Number, estimate: nat): Option<nat> {
    var plus := str != [] && str[0] == '+';
    var s := if plus then str[1..] else str;
    var r := Outcome(s, st, Some(SIZE_SUFFIXES));
    if r.Invalid? || r.overflow || r.badSuffix then None
    else Some(if plus then (estimate + r.val) % MODULUS else r.val)
  }

  /** What strtoull with base 0 makes of a string that starts with a decimal numeral which has
      no leading zero: that number, and no more characters than its digits. */
  ghost predicate DecimalReading(s: string, st: Number) {
    && 0 < st.end <= |s| && !st.otherError
    && AllDigits(s[..st.end]) && st.n == Value(s[..st.end])
    && (st.end == |s| || !IsDigit(s[st.end]))
  }

  /** The options the tools print sizes with. */
  const TOOLS: H.Options := H.Options(R.Nearest, true, false, true, false, true, false)

  lemma {:induction false} MaximalDigits(a: string, b: string, st: Number)
    requires a != [] && AllDigits(a) && (b == [] || !IsDigit(b[0]))
    requires DecimalReading(a + b, st)
    ensures st.end == |a| && st.n == Value(a)
  {
    var s := a + b;
    assert forall k | 0 <= k < |a| :: s[k] == a[k];
    assert forall k | 0 <= k < st.end :: s[k] == s[..st.end][k] && IsDigit(s[k]);
    assert b != [] ==> s[|a|] == b[0];
    assert s[..|a|] == a;
  }

  // ---- What every suffix stands for, in plain numbers

  /** The power of 1024 and that of 1000 a letter stands for. */
  ghost function Units(c: char): Option<(nat, nat)> {
    match c
    case 'k' => Some((1024, 1000))
    case 'K' => Some((1024, 1000))
    case 'm' => Some((1_048_576, 1_000_000))
    case 'M' => Some((1_048_576, 1_000_000))
    case 'g' => Some((1_073_741_824, 1_000_000_000))
    case 'G' => Some((1_073_741_824, 1_000_000_000))
    case 't' => Some((1_099_511_627_776, 1_000_000_000_000))
    case 'T' => Some((1_099_511_627_776, 1_000_000_000_000))
    case 'P' => Some((1_125_899_906_842_624, 1_000_000_000_000_000))
    case 'E' => Some((1_152_921_504_606_846_976, 1_000_000_000_000_000_000))
    case 'Z' => Some((1_180_591_620_717_411_303_424, 1_000_000_000_000_000_000_000))
    case 'Y' => Some((1_208_925_819_614_629_174_706_176, 1_000_000_000_000_000_000_000_000))
    case _ => None
  }

  /** What a whole suffix multiplies by. Behind a letter there may be a second suffix: iB for
      powers of 1024, B or D for powers of 1000. */
  ghost function UnitOf(rest: string, second: bool): Option<nat> {
    if rest == "" then Some(1)
    else if Units(rest[0]).Some? && (rest[1..] == "" || (second && rest[1..] == "iB")) then
      Some(Units(rest[0]).value.0)
    else if Units(rest[0]).Some? && second && (rest[1..] == "B" || rest[1..] == "D") then
      Some(Units(rest[0]).value.1)
    else if rest == "b" then Some(512)
    else if rest == "B" then Some(1024)
    else if rest == "c" then Some(1)
    else if rest == "w" then Some(2)
    else None
  }

  lemma PowersAre(base: nat)
    ensures H.Power(base, 1) == base && H.Power(base, 2) == base * base
    ensures H.Power(base, 3) == H.Power(base, 2) * base && H.Power(base, 4) == H.Power(base, 3) * base
    ensures H.Power(base, 5) == H.Power(base, 4) * base && H.Power(base, 6) == H.Power(base, 5) * base
    ensures H.Power(base, 7) == H.Power(base, 6) * base && H.Power(base, 8) == H.Power(base, 7) * base
  {
    assert H.Power(base, 1) == H.Power(base, 0) * base;
    assert H.Power(base, 2) == H.Power(base, 1) * base;
  }

  lemma LetterUnits(c: char)
    ensures SuffixPower(c).Some? <==> Units(c).Some?
    ensures Units(c).Some? ==>
              Units(c).value == (H.Power(1024, SuffixPower(c).value), H.Power(1000, SuffixPower(c).value))
  {
    hide H.Power;
    PowersAre(1024);
    PowersAre(1000);
  }

  /** The suffix at a position, when there is one that is all of the rest. */
  lemma FactorIs(s: string, at: nat, valid: string)
    requires at < |s| && NUL !in s
    ensures var f, u := Factor(s, at, valid), UnitOf(s[at..], '0' in valid);
            && (u.Some? <==> f.Some? && at + f.value.1 == |s|)
            && (u.Some? ==> f.value.0 == u.value)
            && (f.Some? ==> at < at + f.value.1 <= |s|)
  {
    hide H.Power, Units, SuffixPower;
    LetterUnits(s[at]);
    var rest := s[at..];
    assert s[at] == rest[0];
    assert forall j | 0 <= j < |rest[1..]| :: rest[1..][j] == s[at + 1 + j];
    NotLetters();
  }

  lemma NotLetters()
    ensures Units('b') == None && Units('B') == None && Units('c') == None && Units('w') == None
    ensures SuffixPower('b') == None && SuffixPower('B') == None && SuffixPower('c') == None
            && SuffixPower('w') == None
  {
  }

  /** What is read when nothing is wrong. */
  function Accepted(p: Parsed): Option<nat> {
    if p.Parsed? && !p.overflow && !p.badSuffix then Some(p.val) else None
  }

  /** A number with a suffix reads as the number times the suffix's unit, and is refused exactly
      when the suffix is not one of those asked for, or the product does not fit. Without digits
      the number is 1, if there is a suffix. */
  lemma SuffixRead(digits: string, rest: string, st: Number, valid: string)
    requires AllDigits(digits) && (rest == [] || !IsDigit(rest[0])) && NUL !in rest && NUL !in valid
    requires if digits != [] then DecimalReading(digits + rest, st) else st.end == 0
    requires digits == [] && rest != [] ==> !IsSpace(rest[0]) && rest[0] != '-'
    ensures var n, u := if digits == [] then 1 else Value(digits), UnitOf(rest, '0' in valid);
            Accepted(Outcome(digits + rest, st, Some(valid)))
            == if (digits == [] && rest == []) || (rest != [] && rest[0] !in valid) || u.None?
                  || UINT64_MAX < n * u.value
               then None else Some(n * u.value)
  {
    hide Factor, UnitOf, Value;
    var s := digits + rest;
    NoNul(digits, rest);
    if digits != [] { MaximalDigits(digits, rest, st); }
    assert s[|digits|..] == rest;
    assert rest != [] ==> s[|digits|] == rest[0];
    assert digits != [] ==> s[0] == digits[0] && IsDigit(s[0]);
    NoRest('0' in valid);
    if rest != [] { FactorIs(s, |digits|, valid); }
    AfterSuffix(s, st.end, valid);
  }

  lemma NoRest(second: bool)
    ensures UnitOf("", second) == Some(1)
  {
  }

  lemma AfterSuffix(s: string, at: nat, valid: string)
    requires NUL !in s
    ensures forall k | at <= k :: CharAt(s, k) == NUL <==> |s| <= k
  {
  }

  lemma NoNul(digits: string, rest: string)
    requires AllDigits(digits) && NUL !in rest
    ensures NUL !in digits + rest
  {
  }

  /** A minus sign is refused, also behind white space. */
  lemma {:induction false} NegativeRefused(blanks: string, rest: string, st: Number, valid: Option<string>)
    requires forall k | 0 <= k < |blanks| :: blanks[k] in " \t\n\r" || blanks[k] as int == 11 || blanks[k] as int == 12
    ensures Negative(blanks + "-" + rest) && Outcome(blanks + "-" + rest, st, valid) == Invalid
    decreases |blanks|
  {
    hide Factor;
    var s := blanks + "-" + rest;
    if blanks != [] {
      NegativeRefused(blanks[1..], rest, st, valid);
      assert s[1..] == blanks[1..] + "-" + rest;
      assert s[0] == blanks[0];
    }
  }

  /** A size in plain numbers, with or without digits, suffix and leading plus sign, which adds to
      the estimate in 64 bits. Everything else is refused. */
  lemma SizeRead(plus: bool, n: nat, noDigits: bool, rest: string, st: Number, estimate: nat)
    requires (rest == [] || !IsDigit(rest[0])) && NUL !in rest
    requires var digits := if noDigits then [] else Numeral(n);
             if noDigits then st.end == 0 && n == 1 else DecimalReading(digits + rest, st)
    requires noDigits && rest != [] ==> !IsSpace(rest[0]) && rest[0] != '-' && (plus || rest[0] != '+')
    ensures var text, u := (if noDigits then [] else Numeral(n)) + rest, UnitOf(rest, true);
            ParseSize((if plus then "+" else "") + text, st, estimate)
            == if text == [] || (rest != [] && rest[0] !in "kKMGTPEZY") || u.None?
                  || 0x1_0000_0000_0000_0000 <= n * u.value
               then None
               else Some(if plus then (estimate + n * u.value) % 0x1_0000_0000_0000_0000 else n * u.value)
  {
    NumeralValue(n);
    hide Numeral, Value, UnitOf, Outcome;
    var digits := if noDigits then [] else Numeral(n);
    var text := digits + rest;
    SuffixRead(digits, rest, st, SIZE_SUFFIXES);
    assert text != [] ==> text[0] == if digits == [] then rest[0] else digits[0];
    assert digits != [] ==> IsDigit(digits[0]);
    var str := (if plus then "+" else "") + text;
    assert str == if plus then ['+'] + text else text;
    assert plus ==> str[0] == '+' && str[1..] == text;
    ValidLetters(rest);
  }

  lemma ValidLetters(rest: string)
    requires rest == [] || !IsDigit(rest[0])
    ensures '0' in SIZE_SUFFIXES && NUL !in SIZE_SUFFIXES
    ensures rest != [] ==> (rest[0] in SIZE_SUFFIXES <==> rest[0] in "kKMGTPEZY")
  {
    assert SIZE_SUFFIXES == "0" + "kKMGTPEZY";
    assert SIZE_SUFFIXES[0] == '0';
  }

  // ---- What the tools print reads back

  /** A size printed by the tools without a point reads back as the number before its letter
      times the power of 1024 the letter names, if that fits. It is within half of that power of
      the exact size, and is the exact size itself when there is no letter. With a point it does
      not read back at all. */
  lemma PrintedReadsBack(p: H.Printed, num: nat, den: nat, st: Number, estimate: nat)
    requires H.Faithful(R.Nearest, num, den, 1024, p) && H.WellChosen(TOOLS, p)
    requires DecimalReading(H.Text(p) + H.Suffix(TOOLS, p.exponent), st)
    ensures var unit := H.Power(1024, p.exponent);
            && ParseSize(H.Text(p) + H.Suffix(TOOLS, p.exponent), st, estimate)
               == (if !p.point && p.amt * unit <= UINT64_MAX then Some(p.amt * unit) else None)
            && (!p.point ==> -(den * unit) <= 2 * (num - p.amt * unit * den) <= den * unit)
            && (!p.point && p.exponent == 0 && den == 1 ==> num == p.amt)
  {
    hide H.Power, ParseSize, Numeral, H.Suffix, IsDigit;
    if p.point {
      PointRefused(p, st, estimate);
    } else {
      assert H.Text(p) == Numeral(p.amt) + [] == Numeral(p.amt);
      ReadsBack(p.amt, p.exponent, st, estimate);
      HalfUnit(num, den, H.Power(1024, p.exponent), p.amt);
      H.AtZero(den, 1024);
      H.AtZero(p.amt, 1024);
    }
  }

  lemma PointRefused(p: H.Printed, st: Number, estimate: nat)
    requires p.point && p.tenths < 10 && p.exponent <= H.EXPONENT_MAX
    requires DecimalReading(H.Text(p) + H.Suffix(TOOLS, p.exponent), st)
    ensures ParseSize(H.Text(p) + H.Suffix(TOOLS, p.exponent), st, estimate) == None
  {
    hide H.Power, H.Suffix, Numeral, Factor;
    var text := Numeral(p.amt);
    var rest := ['.', Digit(p.tenths)] + H.Suffix(TOOLS, p.exponent);
    var s := H.Text(p) + H.Suffix(TOOLS, p.exponent);
    assert s == text + rest;
    MaximalDigits(text, rest, st);
    assert s[|text|] == '.' && s[0] == text[0] && IsDigit(text[0]);
  }

  lemma ReadsBack(amt: nat, exponent: nat, st: Number, estimate: nat)
    requires exponent <= H.EXPONENT_MAX && amt <= UINT64_MAX
    requires DecimalReading(Numeral(amt) + H.Suffix(TOOLS, exponent), st)
    ensures var size := amt * H.Power(1024, exponent);
            ParseSize(Numeral(amt) + H.Suffix(TOOLS, exponent), st, estimate)
            == if size <= UINT64_MAX then Some(size) else None
  {
    var text, suffix := Numeral(amt), H.Suffix(TOOLS, exponent);
    SuffixIs(exponent);
    NumeralValue(amt);
    hide H.Power, H.Suffix, ParseSize, Factor, Numeral, Value;
    MaximalDigits(text, suffix, st);
    H.AtZero(amt, 1024);
    assert IsDigit(text[0]) && (text + suffix)[0] == text[0];
    if exponent != 0 {
      LetterRead(text + suffix, |text|, exponent);
      ScaledRead(text + suffix, st, H.Power(1024, exponent), estimate);
    } else {
      assert text + suffix == text;
      PlainRead(text, st, estimate);
    }
  }

  lemma SuffixIs(exponent: nat)
    requires exponent <= H.EXPONENT_MAX
    ensures H.Suffix(TOOLS, exponent) == if exponent == 0 then "" else [H.POWER_LETTER[exponent]]
    ensures exponent != 0 ==> !IsDigit(H.POWER_LETTER[exponent])
  {
  }

  lemma PlainRead(s: string, st: Number, estimate: nat)
    requires s != [] && IsDigit(s[0]) && st.end == |s| && !st.otherError
    ensures ParseSize(s, st, estimate) == if st.n <= UINT64_MAX then Some(st.n) else None
  {
    hide Factor;
  }

  lemma ScaledRead(s: string, st: Number, factor: nat, estimate: nat)
    requires |s| == st.end + 1 && IsDigit(s[0]) && 0 < st.end && !st.otherError
    requires s[st.end] in SIZE_SUFFIXES && Factor(s, st.end, SIZE_SUFFIXES) == Some((factor, 1))
    ensures ParseSize(s, st, estimate) == if st.n * factor <= UINT64_MAX then Some(st.n * factor) else None
  {
    hide Factor;
  }

  function DigitCount(s: string): (k: nat)
    ensures k <= |s| && AllDigits(s[..k]) && (k == |s| || !IsDigit(s[k]))
  {
    if s == [] || !IsDigit(s[0]) then 0
    else
      var k := DigitCount(s[1..]);
      assert s[..k + 1] == [s[0]] + s[1..][..k];
      k + 1
  }

  /** The number strtoull reads at the start of a decimal text. */
  function Leading(s: string): Number {
    var k := DigitCount(s);
    Number(Value(s[..k]), k, false)
  }

  /** From a size in blocks of `from` bytes, by way of its printed form, to the size read back. */
  method SizeReadBack(n: nat, from: nat, estimate: nat) returns (p: H.Printed, read: Option<nat>)
    requires 0 < from && n * from <= UINT64_MAX && from <= UINT64_MAX && n <= UINT64_MAX
    ensures var size, unit := n * from, H.Power(1024, p.exponent);
            && read == (if !p.point && p.amt * unit <= UINT64_MAX then Some(p.amt * unit) else None)
            && (read.Some? ==> 2 * (size - read.value) <= unit && 2 * (read.value - size) <= unit)
            && (p.exponent == 0 ==> read == Some(size))
  {
    hide H.Power, H.Faithful, H.Text, H.Suffix, ParseSize, R.Div, R.Mod, H.DivisionRight;
    var buf := new char[H.LONGEST_HUMAN_READABLE];
    var r, unit;
    WholeBlocks(n, from);
    r, p, unit := H.HumanReadable(n, buf, TOOLS, from, 1);
    var text := buf[r.value.0..r.value.1];
    LeadingReads(p, text);
    PrintedReadsBack(p, n * from, 1, Leading(text), estimate);
    read := ParseSize(text, Leading(text), estimate);
    AtOne(p.exponent);
    H.AtZero(p.amt, 1024);
  }

  lemma WholeBlocks(n: nat, from: nat)
    requires 0 < from && n * from <= UINT64_MAX
    ensures H.IntegerPath(n, from, 1) && H.Fraction(n, from, 1) == (n * from, 1)
            && (forall style :: H.DivisionRight(style, n, from, 1))
  {
    assert R.Mod(from, 1) == 0 && R.Div(from, 1) == from;
  }

  lemma AtOne(exponent: nat)
    ensures 1 * H.Power(1024, exponent) == H.Power(1024, exponent)
  {
  }

  lemma LeadingReads(p: H.Printed, text: string)
    requires p.tenths < 10 && p.exponent <= H.EXPONENT_MAX
    requires text == H.Text(p) + H.Suffix(TOOLS, p.exponent)
    ensures DecimalReading(text, Leading(text))
  {
    hide Numeral, H.Suffix, Value;
    assert text[0] == Numeral(p.amt)[0] && IsDigit(text[0]);
  }

  /** One capital letter, from K to Y, at the end of a string. */
  lemma LetterRead(s: string, at: nat, exponent: nat)
    requires 0 < exponent <= H.EXPONENT_MAX && |s| == at + 1 && s[at] == H.POWER_LETTER[exponent]
    ensures s[at] in SIZE_SUFFIXES && s[at] != NUL && !IsDigit(s[at])
    ensures Factor(s, at, SIZE_SUFFIXES) == Some((H.Power(1024, exponent), 1))
  {
    hide H.Power;
    assert H.POWER_LETTER[exponent] == SIZE_SUFFIXES[if exponent == 1 then 2 else exponent + 1];
  }

  lemma HalfUnit(num: nat, den: nat, unit: nat, amt: nat)
    requires R.Rounded(R.Nearest, 10 * num, den * unit, 10 * amt, 10)
    ensures -(den * unit) <= 2 * (num - amt * unit * den) <= den * unit
  {
    var d := den * unit;
    assert 10 * amt * d == 10 * (amt * d);
    assert amt * unit * den == amt * d;
  }
}
