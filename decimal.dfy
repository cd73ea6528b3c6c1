/**
 * Decimal rendering of non-negative integers as ASCII digits
 * (`strconv.Itoa` on the values the codec passes it), with the
 * numeral's value as an independent reading.
 */
module Decimal {
  import opened Bytes

  /** ASCII '0'. */
  const Zero: byte := 0x30

  predicate IsDigit(c: byte) {
    0x30 <= c <= 0x39
  }

  predicate AllDigits(s: seq<byte>) {
    forall i :: 0 <= i < |s| ==> IsDigit(s[i])
  }

  /** A numeral as `strconv.Itoa` writes one: non-empty, digits only, no leading zero. */
  predicate Canonical(s: seq<byte>) {
    |s| > 0 && AllDigits(s) && (s[0] == Zero ==> |s| == 1)
  }

  /** The ASCII digit for `d`. */
  function Digit(d: nat): (c: byte)
    requires d < 10
    ensures IsDigit(c) && c as int - 0x30 == d
  {
    (0x30 + d) as byte
  }

  /** `strconv.Itoa(n)` for `n >= 0`: a non-empty string of ASCII digits. */
  function Itoa(n: nat): (s: seq<byte>)
    ensures |s| > 0 && AllDigits(s)
    decreases n
  {
    if n < 10 then [Digit(n)] else Itoa(n / 10) + [Digit(n % 10)]
  }

  /** An octet's numeral has one to three digits. */
  lemma ItoaOctetLength(n: nat)
    requires n < 256
    ensures 1 <= |Itoa(n)| <= 3
  {
    if n >= 10 {
      assert |Itoa(n)| == |Itoa(n / 10)| + 1;
      if n >= 100 {
        assert |Itoa(n / 10)| == |Itoa(n / 100)| + 1;
      }
    }
  }

  /** The value of a string of ASCII digits, most significant first. */
  function Value(s: seq<byte>): nat
    requires AllDigits(s)
  {
    if s == [] then 0 else 10 * Value(s[..|s| - 1]) + (s[|s| - 1] as int - 0x30)
  }

  /** `Itoa` writes a canonical numeral for exactly `n`. */
  lemma {:induction false} ItoaValue(n: nat)
    ensures Canonical(Itoa(n)) && Value(Itoa(n)) == n
    decreases n
  {
    var s := Itoa(n);
    if n >= 10 {
      ItoaValue(n / 10);
      assert s[..|s| - 1] == Itoa(n / 10);
      assert s[0] == Itoa(n / 10)[0];
    }
  }

  /** A numeral that starts with a non-zero digit has a positive value. */
  lemma {:induction false} ValuePositive(s: seq<byte>)
    requires |s| > 0 && AllDigits(s) && s[0] != Zero
    ensures Value(s) > 0
    decreases |s|
  {
    if |s| > 1 {
      ValuePositive(s[..|s| - 1]);
    }
  }

  /** Every canonical numeral is what `Itoa` writes for its value. */
  lemma {:induction false} ValueItoa(s: seq<byte>)
    requires Canonical(s)
    ensures Itoa(Value(s)) == s
    decreases |s|
  {
    if |s| > 1 {
      var t := s[..|s| - 1];
      assert t[0] == s[0];
      ValuePositive(t);
      ValueItoa(t);
      assert s == t + [s[|s| - 1]];
    }
  }

  /** Different values have different numerals. */
  lemma ItoaInjective(m: nat, n: nat)
    requires Itoa(m) == Itoa(n)
    ensures m == n
  {
    ItoaValue(m);
    ItoaValue(n);
  }
}
