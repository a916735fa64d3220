// Positional numerals, most significant digit first, in any base of at least two.
module Numerals {

  ghost predicate AreDigits(b: nat, ds: seq<nat>) {
    forall i :: 0 <= i < |ds| ==> ds[i] < b
  }

  /** No leading zero; the number zero is written with no digit at all. */
  ghost predicate Canonical(b: nat, ds: seq<nat>) {
    AreDigits(b, ds) && (ds != [] ==> ds[0] != 0)
  }

  function Pow(b: nat, e: nat): (p: nat)
    ensures b > 0 ==> p > 0
  {
    if e == 0 then 1 else Pow(b, e - 1) * b
  }

  function Value(b: nat, ds: seq<nat>): nat {
    if ds == [] then 0 else Value(b, ds[..|ds| - 1]) * b + ds[|ds| - 1]
  }

  lemma MulMonotone(x: nat, y: nat, k: nat)
    requires x <= y
    ensures x * k <= y * k
    ensures k * x <= k * y
  {
  }

  lemma DivShrinks(n: nat, b: nat)
    requires n > 0 && b >= 2
    ensures n / b < n
  {
    var q := n / b;
    assert n == q * b + n % b;
    assert q >= 0;
    MulMonotone(2, b, q);
  }

  function Digits(b: nat, n: nat): (ds: seq<nat>)
    requires b >= 2
    decreases n
  {
    if n == 0 then [] else DivShrinks(n, b); Digits(b, n / b) + [n % b]
  }

  lemma Succ(q: nat, b: nat)
    ensures (q + 1) * b == q * b + b
  {
  }

  /** Quotient and remainder are determined by the number they make up. */
  lemma QuotientUnique(b: nat, q: nat, r: nat, q': nat, r': nat)
    requires r < b && r' < b && q * b + r == q' * b + r'
    ensures q == q' && r == r'
  {
    Succ(q, b);
    Succ(q', b);
    if q < q' {
      MulMonotone(q + 1, q', b);
    } else if q' < q {
      MulMonotone(q' + 1, q, b);
    }
  }

  lemma DivMod(b: nat, q: nat, r: nat)
    requires r < b
    ensures (q * b + r) / b == q && (q * b + r) % b == r
  {
    var n := q * b + r;
    assert n == n / b * b + n % b;
    assert n / b >= 0;
    QuotientUnique(b, n / b, n % b, q, r);
  }

  lemma Parts(n: nat, b: nat)
    requires b >= 1
    ensures n / b >= 0 && n % b < b && n == n / b * b + n % b
  {
  }

  lemma DivModParts(n: nat, b: nat) returns (q: nat, r: nat)
    requires n > 0 && b >= 2
    ensures q == n / b && r == n % b
    ensures n == q * b + r && r < b && q < n
    ensures q == 0 ==> r != 0
  {
    DivShrinks(n, b);
    q, r := n / b, n % b;
  }

  lemma MulAssociative(x: nat, y: nat, z: nat)
    ensures x * y * z == x * (y * z)
  {
  }

  /** Dividing twice is dividing by the product. */
  lemma DivDiv(n: nat, a: nat, b: nat)
    requires a > 0 && b > 0
    ensures b * a > 0 && n / a / b == n / (b * a)
  {
    var q, r := n / a, n % a;
    var q2, r2 := q / b, q % b;
    assert n == q * a + r && q == q2 * b + r2;
    assert q >= 0;
    MulMonotone(r2 + 1, b, a);
    Succ(r2, a);
    MulAssociative(q2, b, a);
    assert (q2 * b + r2) * a == q2 * b * a + r2 * a;
    DivMod(b * a, q2, r2 * a + r);
  }

  lemma ValueSnoc(b: nat, front: seq<nat>, last: nat)
    ensures Value(b, front + [last]) == Value(b, front) * b + last
  {
    assert (front + [last])[..|front + [last]| - 1] == front;
  }

  lemma {:induction false} DigitsValue(b: nat, n: nat)
    requires b >= 2
    ensures Value(b, Digits(b, n)) == n
    ensures Canonical(b, Digits(b, n))
    ensures n != 0 ==> Digits(b, n) != []
    decreases n
  {
    if n != 0 {
      var q, r := DivModParts(n, b);
      DigitsValue(b, q);
      ValueSnoc(b, Digits(b, q), r);
    }
  }

  lemma {:induction false} ValueDigits(b: nat, ds: seq<nat>)
    requires b >= 2 && Canonical(b, ds)
    ensures Digits(b, Value(b, ds)) == ds
    ensures ds != [] ==> Value(b, ds) > 0
  {
    if ds != [] {
      var front, last := ds[..|ds| - 1], ds[|ds| - 1];
      assert front != [] ==> front[0] == ds[0];
      ValueDigits(b, front);
      DivMod(b, Value(b, front), last);
      if front != [] {
        MulMonotone(1, Value(b, front), b);
      }
      assert ds == front + [last];
    }
  }

  lemma MulDistributes(x: nat, y: nat, z: nat)
    ensures (x + y) * z == x * z + y * z
  {
  }

  lemma {:induction false} ValueAppend(b: nat, x: seq<nat>, y: seq<nat>)
    ensures Value(b, x + y) == Value(b, x) * Pow(b, |y|) + Value(b, y)
    decreases |y|
  {
    if y == [] {
      assert x + y == x;
    } else {
      var y', last := y[..|y| - 1], y[|y| - 1];
      assert (x + y)[..|x + y| - 1] == x + y';
      ValueAppend(b, x, y');
      calc {
        Value(b, x + y);
        (Value(b, x) * Pow(b, |y'|) + Value(b, y')) * b + last;
        { MulDistributes(Value(b, x) * Pow(b, |y'|), Value(b, y'), b); }
        Value(b, x) * Pow(b, |y'|) * b + Value(b, y') * b + last;
        { MulAssociative(Value(b, x), Pow(b, |y'|), b); }
        Value(b, x) * Pow(b, |y|) + Value(b, y);
      }
    }
  }

  lemma {:induction false} ValueBound(b: nat, ds: seq<nat>)
    requires AreDigits(b, ds)
    ensures Value(b, ds) < Pow(b, |ds|)
  {
    if ds != [] {
      var (front, last) := (ds[..|ds| - 1], ds[|ds| - 1]);
      ValueBound(b, front);
      assert last < b && Value(b, ds) == Value(b, front) * b + last;
      MulMonotone(Value(b, front) + 1, Pow(b, |front|), b);
      Succ(Value(b, front), b);
    }
  }

  /** Leading zeros do not change the value. */
  lemma {:induction false} ValueLeadingZeros(b: nat, k: nat, ds: seq<nat>)
    ensures Value(b, seq(k, _ => 0) + ds) == Value(b, ds)
    decreases |ds|, k
  {
    var zs: seq<nat> := seq(k, _ => 0);
    if ds != [] {
      var front := ds[..|ds| - 1];
      assert (zs + ds)[..|zs + ds| - 1] == zs + front;
      ValueLeadingZeros(b, k, front);
    } else if k > 0 {
      assert (zs + ds)[..k - 1] == seq(k - 1, _ => 0) + [];
      ValueLeadingZeros(b, k - 1, []);
    }
  }

  lemma {:induction false} PowGrows(b: nat, d: nat, e: nat)
    requires b >= 1 && d <= e
    ensures Pow(b, d) <= Pow(b, e)
    decreases e
  {
    if d < e {
      PowGrows(b, d, e - 1);
      MulMonotone(1, b, Pow(b, e - 1));
    }
  }

  lemma {:induction false} PowAdd(b: nat, m: nat, n: nat)
    ensures Pow(b, m + n) == Pow(b, m) * Pow(b, n)
    decreases n
  {
    if n > 0 {
      PowAdd(b, m, n - 1);
      MulAssociative(Pow(b, m), Pow(b, n - 1), b);
    }
  }
}
