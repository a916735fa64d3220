// Decimal strings in canonical form: no sign, no leading zero, "0" for zero.
module Decimals {
  import opened Ascii
  import opened Numerals

  function DigitChar(d: nat): char
    requires d < 10
  {
    "0123456789"[d]
  }

  function DigitOf(c: char): (d: nat)
    requires IsDigit(c)
    ensures d < 10
  {
    c as int - '0' as int
  }

  predicate AllDigits(s: string) {
    forall i :: 0 <= i < |s| ==> IsDigit(s[i])
  }

  function DigitsOf(s: string): (ds: seq<nat>)
    requires AllDigits(s)
    ensures |ds| == |s| && AreDigits(10, ds)
  {
    seq(|s|, i requires 0 <= i < |s| => DigitOf(s[i]))
  }

  function CharsOf(ds: seq<nat>): (s: string)
    requires AreDigits(10, ds)
    ensures |s| == |ds| && AllDigits(s)
  {
    seq(|ds|, i requires 0 <= i < |ds| => DigitChar(ds[i]))
  }

  lemma CharsOfDigits(s: string)
    requires AllDigits(s)
    ensures CharsOf(DigitsOf(s)) == s
  {
    forall i | 0 <= i < |s| ensures CharsOf(DigitsOf(s))[i] == s[i] {
      assert DigitsOf(s)[i] == DigitOf(s[i]);
    }
  }

  lemma DigitsOfChars(ds: seq<nat>)
    requires AreDigits(10, ds)
    ensures DigitsOf(CharsOf(ds)) == ds
  {
    forall i | 0 <= i < |ds| ensures DigitsOf(CharsOf(ds))[i] == ds[i] {
      assert CharsOf(ds)[i] == DigitChar(ds[i]);
    }
  }

  /** The strings matched by ^(0|[1-9][0-9]*)$. */
  predicate IsCanonical(s: string) {
    s != "" && AllDigits(s) && (s[0] == '0' ==> s == "0")
  }

  function ToNat(s: string): nat
    requires AllDigits(s)
  {
    Value(10, DigitsOf(s))
  }

  /** Read from the left, each digit after ten times what stands before it. */
  lemma ReadDigitByDigit(s: string, c: char)
    requires AllDigits(s) && '0' <= c <= '9'
    ensures AllDigits(s + [c]) && ToNat("") == 0
    ensures ToNat(s + [c]) == ToNat(s) * 10 + (c as int - 48)
  {
    assert DigitsOf(s + [c]) == DigitsOf(s) + [DigitOf(c)];
    ValueSnoc(10, DigitsOf(s), DigitOf(c));
  }

  /** Canonical: digits only, and no zero in front of another digit. */
  lemma CanonicalExactly(s: string)
    ensures IsCanonical(s)
       <==> |s| >= 1 && (forall i :: 0 <= i < |s| ==> '0' <= s[i] <= '9') && (|s| >= 2 ==> s[0] != '0')
  {
    if |s| == 1 {
      assert s == [s[0]];
    }
  }

  function FromNat(n: nat): string {
    DigitsValue(10, n);
    if n == 0 then "0" else CharsOf(Digits(10, n))
  }

  lemma FromNatCanonical(n: nat)
    ensures IsCanonical(FromNat(n)) && ToNat(FromNat(n)) == n
  {
    DigitsValue(10, n);
    if n == 0 {
      assert DigitsOf("0") == [0];
      ValueSnoc(10, [], 0);
    } else {
      var ds := Digits(10, n);
      DigitsOfChars(ds);
      assert DigitOf(FromNat(n)[0]) == ds[0];
    }
  }

  lemma ToNatCanonical(s: string)
    requires IsCanonical(s)
    ensures FromNat(ToNat(s)) == s
    ensures ToNat(s) == 0 <==> s == "0"
  {
    if s == "0" {
      assert DigitsOf("0") == [0];
      ValueSnoc(10, [], 0);
    } else {
      assert DigitsOf(s)[0] == DigitOf(s[0]);
      ValueDigits(10, DigitsOf(s));
      CharsOfDigits(s);
    }
  }
}
