/** Decimal numerals, as the printing and reading code has them. */
module Decimal {

  predicate IsDigit(c: char) {
    '0' <= c <= '9'
  }

  predicate AllDigits(s: string) {
    forall k | 0 <= k < |s| :: IsDigit(s[k])
  }

  function Digit(d: nat): (c: char)
    requires d < 10
    ensures IsDigit(c)
  {
    "0123456789"[d]
  }

  function DigitValue(c: char): (d: nat)
    requires IsDigit(c)
    ensures d < 10
  {
    c as int - '0' as int
  }

  /** The digits of n, most significant first, without leading zeros. */
  function Numeral(n: nat): (s: string)
    ensures s != [] && AllDigits(s)
  {
    if n < 10 then [Digit(n)] else Numeral(n / 10) + [Digit(n % 10)]
  }

  /** The number a string of digits stands for. */
  function Value(s: string): nat
    requires AllDigits(s)
  {
    if s == [] then 0 else Value(s[..|s| - 1]) * 10 + DigitValue(s[|s| - 1])
  }

  lemma ValueAppend(s: string, c: char)
    requires AllDigits(s) && IsDigit(c)
    ensures Value(s + [c]) == Value(s) * 10 + DigitValue(c)
  {
    assert (s + [c])[..|s|] == s;
  }

  lemma OneDigit(n: nat)
    requires n < 10
    ensures Value(Numeral(n)) == n && (Numeral(n)[0] == '0' ==> n == 0)
  {
    DigitRoundTrip(n);
    assert Numeral(n) == [Digit(n)] && [Digit(n)][..0] == [];
  }

  lemma LastDigit(n: nat)
    requires 10 <= n
    ensures Numeral(n) == Numeral(n / 10) + [Digit(n % 10)] && Numeral(n)[0] == Numeral(n / 10)[0]
    ensures Value(Numeral(n)) == Value(Numeral(n / 10)) * 10 + n % 10
  {
    hide Value;
    DigitRoundTrip(n % 10);
    ValueAppend(Numeral(n / 10), Digit(n % 10));
  }

  /** Reading a numeral back gives the number, and only 0 starts with a 0. */
  lemma {:induction false} NumeralValue(n: nat)
    ensures Value(Numeral(n)) == n
    ensures Numeral(n)[0] == '0' ==> n == 0
    decreases n
  {
    hide Numeral, Value;
    if n < 10 {
      OneDigit(n);
    } else {
      NumeralValue(n / 10);
      LastDigit(n);
    }
  }

  lemma DigitRoundTrip(d: nat)
    requires d < 10
    ensures DigitValue(Digit(d)) == d && (Digit(d) == '0' <==> d == 0)
  {
  }

  function Power10(k: nat): nat {
    if k == 0 then 1 else 10 * Power10(k - 1)
  }

  lemma {:induction false} NumeralLength(n: nat, k: nat)
    requires 0 < k && n < Power10(k)
    ensures |Numeral(n)| <= k
    decreases n
  {
    if 10 <= n {
      NumeralLength(n / 10, k - 1);
    }
  }

  /** Moving the last digit of amt over to the digits that have been written. */
  lemma DigitMoved(amt: nat, written: string, all: string)
    requires 0 < amt && Numeral(amt) + written == all
    ensures var more := [Digit(amt % 10)] + written;
            if amt / 10 == 0 then |Numeral(amt)| == 1 && more == all
            else |Numeral(amt / 10)| == |Numeral(amt)| - 1 && Numeral(amt / 10) + more == all
  {
    if amt < 10 {
      assert Numeral(amt) == [Digit(amt)];
    } else {
      hide Numeral;
      LastDigit(amt);
      assert Numeral(amt / 10) + ([Digit(amt % 10)] + written) == Numeral(amt) + written;
    }
  }

  /** Writes the digits of amt backwards from position end; returns where they start. */
  method WriteDigits(buf: array<char>, end: nat, amt0: nat) returns (p: nat)
    requires |Numeral(amt0)| <= end <= buf.Length
    modifies buf
    ensures p == end - |Numeral(amt0)| && buf[p..end] == Numeral(amt0)
    ensures buf[..p] == old(buf[..p]) && buf[end..] == old(buf[end..])
  {
    hide Numeral;
    p := end - 1;
    var amt := amt0;
    FirstDigit(amt);
    buf[p] := Digit(amt % 10);
    amt := amt / 10;
    while amt != 0
      invariant p < end && buf[..p] == old(buf[..p]) && buf[end..] == old(buf[end..])
      invariant amt == 0 ==> buf[p..end] == Numeral(amt0)
      invariant amt != 0 ==> |Numeral(amt)| <= p && Numeral(amt) + buf[p..end] == Numeral(amt0)
      decreases amt
    {
      ghost var before := buf[p..end];
      DigitMoved(amt, before, Numeral(amt0));
      p := p - 1;
      buf[p] := Digit(amt % 10);
      assert buf[p..end] == [Digit(amt % 10)] + before;
      amt := amt / 10;
    }
  }

  lemma FirstDigit(amt: nat)
    ensures if amt / 10 == 0 then Numeral(amt) == [Digit(amt % 10)]
            else Numeral(amt) == Numeral(amt / 10) + [Digit(amt % 10)]
  {
  }
}
