// The regular expression that decides a numeric bound: it is generated digit by digit from the decimal
// maximum, and accepts exactly the canonical decimals up to it.
module RwaPattern {
  import opened Ascii
  import opened Decimals
  import opened Numerals
  import opened Wrappers

  // ---------- Regular expressions of this shape ----------

  /** A character class with a bounded repetition. */
  datatype Atom = Atom(low: char, high: char, min: nat, max: nat)

  type Alternative = seq<Atom>

  predicate InClass(atom: Atom, c: char) {
    atom.low <= c <= atom.high
  }

  predicate Takes(atom: Atom, s: string, k: nat) {
    atom.min <= k <= atom.max && k <= |s| && forall j :: 0 <= j < k ==> InClass(atom, s[j])
  }

  /** The whole string matches: some number of repetitions of the first atom, then the rest. */
  ghost predicate Matches(alternative: Alternative, s: string)
    decreases |alternative|
  {
    if alternative == [] then s == ""
    else exists k: nat :: Takes(alternative[0], s, k) && Matches(alternative[1..], s[k..])
  }

  /** An anchored alternation. */
  ghost predicate Accepts(pattern: seq<Alternative>, s: string) {
    exists i :: 0 <= i < |pattern| && Matches(pattern[i], s)
  }

  // ---------- Generation ----------

  function Literal(c: char): Atom {
    Atom(c, c, 1, 1)
  }

  function Literals(s: string): (atoms: Alternative)
    ensures |atoms| == |s|
  {
    seq(|s|, i requires 0 <= i < |s| => Literal(s[i]))
  }

  /** The numbers that first fall below the maximum at digit `i`; None when the class would be empty. */
  function Branch(maximum: string, i: nat): Option<Alternative>
    requires i < |maximum| && AllDigits(maximum)
  {
    var low := if i == 0 then '1' else '0';
    if maximum[i] <= low then None
    else
      var rest := |maximum| - 1 - i;
      Some(Literals(maximum[..i]) + ([Atom(low, maximum[i] - 1 as char, 1, 1)]
                                     + if rest == 0 then [] else [Atom('0', '9', rest, rest)]))
  }

  function Branches(maximum: string, n: nat): seq<Alternative>
    requires n <= |maximum| && AllDigits(maximum)
  {
    if n == 0 then []
    else Branches(maximum, n - 1) + match Branch(maximum, n - 1) case None => [] case Some(a) => [a]
  }

  const ZERO: Alternative := [Literal('0')]

  /** Numbers with fewer digits than the maximum. */
  function Shorter(digits: nat): Alternative
    requires digits >= 2
  {
    [Atom('1', '9', 1, 1), Atom('0', '9', 0, digits - 2)]
  }

  function Pattern(maximum: string): seq<Alternative>
    requires AllDigits(maximum)
  {
    [ZERO] + (if |maximum| >= 2 then [Shorter(|maximum|)] else []) + Branches(maximum, |maximum|) + [Literals(maximum)]
  }

  // ---------- What the pieces match ----------

  lemma OneMatches(atom: Atom, rest: Alternative, s: string)
    requires atom.min == 1 && atom.max == 1
    ensures Matches([atom] + rest, s) <==> s != "" && InClass(atom, s[0]) && Matches(rest, s[1..])
  {
    var alternative := [atom] + rest;
    assert alternative[0] == atom && alternative[1..] == rest;
    if s != "" && InClass(atom, s[0]) && Matches(rest, s[1..]) {
      assert Takes(alternative[0], s, 1);
    }
  }

  lemma LastMatches(atom: Atom, s: string)
    ensures Matches([atom], s) <==> Takes(atom, s, |s|)
  {
    var alternative := [atom];
    assert alternative[1..] == [];
    if Takes(atom, s, |s|) {
      assert s[|s|..] == "";
      assert Matches(alternative[1..], s[|s|..]);
    }
    if Matches(alternative, s) {
      var k: nat :| Takes(alternative[0], s, k) && Matches(alternative[1..], s[k..]);
      assert |s[k..]| == 0;
    }
  }

  lemma Shift(p: string, s: string)
    requires p != "" && s != ""
    ensures p <= s <==> p[0] == s[0] && p[1..] <= s[1..]
    ensures |p| <= |s| ==> s[1..][|p| - 1..] == s[|p|..]
  {
    if p[0] == s[0] && p[1..] <= s[1..] {
      assert p == [p[0]] + p[1..];
      assert s == [s[0]] + s[1..];
    }
    if p <= s {
      assert p[1..] == s[1..][..|p| - 1];
    }
  }

  lemma {:induction false} LiteralsMatch(p: string, rest: Alternative, s: string)
    ensures Matches(Literals(p) + rest, s) <==> p <= s && Matches(rest, s[|p|..])
  {
    if p == "" {
      assert Literals(p) + rest == rest && s[0..] == s;
    } else {
      assert Literals(p) == [Literal(p[0])] + Literals(p[1..]);
      assert Literals(p) + rest == [Literal(p[0])] + (Literals(p[1..]) + rest);
      OneMatches(Literal(p[0]), Literals(p[1..]) + rest, s);
      if s != "" {
        LiteralsMatch(p[1..], rest, s[1..]);
        Shift(p, s);
      }
    }
  }

  /** `s` first differs from the maximum at digit `i`, and is smaller there. */
  predicate FallsBelow(s: string, maximum: string, i: nat) {
    i < |s| == |maximum| && s[..i] == maximum[..i] && s[i] < maximum[i]
  }

  lemma TailMatches(low: char, high: char, rest: nat, s: string)
    ensures Matches([Atom(low, high, 1, 1)] + if rest == 0 then [] else [Atom('0', '9', rest, rest)], s)
       <==> |s| == rest + 1 && low <= s[0] <= high && AllDigits(s[1..])
  {
    if rest == 0 {
      OneMatches(Atom(low, high, 1, 1), [], s);
    } else {
      var atom := Atom('0', '9', rest, rest);
      OneMatches(Atom(low, high, 1, 1), [atom], s);
      if s != "" {
        LastMatches(atom, s[1..]);
        assert Takes(atom, s[1..], |s[1..]|) <==> |s[1..]| == rest && AllDigits(s[1..]);
      }
    }
  }

  lemma SuffixDigits(s: string, i: nat)
    requires i < |s|
    ensures AllDigits(s) <==> AllDigits(s[..i]) && IsDigit(s[i]) && AllDigits(s[i..][1..])
  {
    assert s == s[..i] + [s[i]] + s[i..][1..];
  }

  lemma BranchMatches(maximum: string, i: nat, s: string)
    requires i < |maximum| && AllDigits(maximum)
    ensures (Branch(maximum, i).Some? && Matches(Branch(maximum, i).value, s))
       <==> FallsBelow(s, maximum, i) && AllDigits(s) && (i == 0 ==> s[0] != '0')
  {
    var low := if i == 0 then '1' else '0';
    if Branch(maximum, i).Some? {
      var (high, rest) := (maximum[i] - 1 as char, |maximum| - 1 - i);
      var tail := [Atom(low, high, 1, 1)] + if rest == 0 then [] else [Atom('0', '9', rest, rest)];
      LiteralsMatch(maximum[..i], tail, s);
      if maximum[..i] <= s {
        TailMatches(low, high, rest, s[i..]);
        assert s[..i] == maximum[..i];
        if i < |s| {
          SuffixDigits(s, i);
        }
      }
    }
  }

  lemma AcceptsAppend(a: seq<Alternative>, b: seq<Alternative>, s: string)
    ensures Accepts(a + b, s) <==> Accepts(a, s) || Accepts(b, s)
  {
    if i :| 0 <= i < |a| && Matches(a[i], s) {
      assert (a + b)[i] == a[i];
    }
    if i :| 0 <= i < |b| && Matches(b[i], s) {
      assert (a + b)[|a| + i] == b[i];
    }
  }

  lemma AcceptsOne(a: Alternative, s: string)
    ensures Accepts([a], s) <==> Matches(a, s)
  {
    assert [a][0] == a;
  }

  lemma {:induction false} BranchesMatch(maximum: string, n: nat, s: string)
    requires n <= |maximum| && AllDigits(maximum)
    ensures Accepts(Branches(maximum, n), s)
       <==> AllDigits(s) && exists i :: 0 <= i < n && FallsBelow(s, maximum, i) && (i == 0 ==> s[0] != '0')
  {
    if n > 0 {
      BranchesMatch(maximum, n - 1, s);
      BranchMatches(maximum, n - 1, s);
      match Branch(maximum, n - 1) {
        case None =>
          assert Branches(maximum, n) == Branches(maximum, n - 1);
        case Some(a) =>
          AcceptsAppend(Branches(maximum, n - 1), [a], s);
          AcceptsOne(a, s);
      }
    }
  }

  lemma TakesDigits(most: nat, s: string)
    ensures Takes(Atom('0', '9', 0, most), s, |s|) <==> |s| <= most && AllDigits(s)
  {
  }

  lemma DigitsAhead(s: string)
    requires s != ""
    ensures AllDigits(s) <==> IsDigit(s[0]) && AllDigits(s[1..])
  {
    assert s == [s[0]] + s[1..];
  }

  lemma ShorterMatches(digits: nat, s: string)
    requires digits >= 2
    ensures Matches(Shorter(digits), s) <==> IsCanonical(s) && s != "0" && |s| < digits
  {
    var (first, more) := (Atom('1', '9', 1, 1), Atom('0', '9', 0, digits - 2));
    assert Shorter(digits) == [first] + [more];
    OneMatches(first, [more], s);
    if s != "" {
      LastMatches(more, s[1..]);
      TakesDigits(digits - 2, s[1..]);
      DigitsAhead(s);
    }
  }

  lemma ExactMatches(p: string, s: string)
    ensures Matches(Literals(p), s) <==> s == p
  {
    LiteralsMatch(p, [], s);
    assert Literals(p) + [] == Literals(p);
  }

  // ---------- Comparing decimals digit by digit ----------

  lemma Around<T>(s: seq<T>, i: nat)
    requires i < |s|
    ensures s == s[..i] + [s[i]] + s[i + 1..]
  {
  }

  lemma Split(s: string, i: nat)
    requires AllDigits(s) && i < |s|
    ensures ToNat(s) == (Value(10, DigitsOf(s)[..i]) * 10 + DigitOf(s[i])) * Pow(10, |s| - 1 - i)
                        + Value(10, DigitsOf(s)[i + 1..])
    ensures Value(10, DigitsOf(s)[i + 1..]) < Pow(10, |s| - 1 - i)
  {
    var ds := DigitsOf(s);
    var front, tail := ds[..i] + [ds[i]], ds[i + 1..];
    Around(ds, i);
    ValueAppend(10, front, tail);
    ValueSnoc(10, ds[..i], ds[i]);
    ValueBound(10, tail);
  }

  lemma FallsBelowIsLess(s: string, t: string, i: nat)
    requires AllDigits(s) && AllDigits(t) && FallsBelow(s, t, i)
    ensures ToNat(s) < ToNat(t)
  {
    Split(s, i);
    Split(t, i);
    assert DigitsOf(s)[..i] == DigitsOf(t)[..i] by {
      forall k | 0 <= k < i ensures DigitsOf(s)[k] == DigitsOf(t)[k] {
        assert s[..i][k] == s[k] && t[..i][k] == t[k];
      }
    }
    var front, p := Value(10, DigitsOf(s)[..i]) * 10, Pow(10, |s| - 1 - i);
    MulMonotone(front + DigitOf(s[i]) + 1, front + DigitOf(t[i]), p);
    Succ(front + DigitOf(s[i]), p);
  }

  lemma FirstDifference(s: string, t: string) returns (i: nat)
    requires |s| == |t| && s != t
    ensures i < |s| && s[..i] == t[..i] && s[i] != t[i]
  {
    i := 0;
    while i < |s| && s[i] == t[i]
      invariant i <= |s| && s[..i] == t[..i]
    {
      assert s[..i + 1] == s[..i] + [s[i]] && t[..i + 1] == t[..i] + [t[i]];
      i := i + 1;
    }
    assert s[..|s|] == s && t[..|t|] == t;
  }

  /** Between strings of one length, the order of the values is decided at the first difference. */
  lemma SameLengthOrder(s: string, t: string)
    requires AllDigits(s) && AllDigits(t) && |s| == |t|
    ensures ToNat(s) <= ToNat(t) <==> s == t || exists i :: 0 <= i < |t| && FallsBelow(s, t, i)
  {
    if i :| 0 <= i < |t| && FallsBelow(s, t, i) {
      FallsBelowIsLess(s, t, i);
    }
    if s != t {
      var i := FirstDifference(s, t);
      if t[i] < s[i] {
        FallsBelowIsLess(t, s, i);
      } else {
        assert FallsBelow(s, t, i);
      }
    }
  }

  lemma LeadingDigit(s: string)
    requires AllDigits(s) && s != ""
    ensures ToNat(s) >= DigitOf(s[0]) * Pow(10, |s| - 1)
  {
    Split(s, 0);
    assert Value(10, DigitsOf(s)[..0]) == 0;
  }

  /** A canonical decimal other than zero with n digits lies between two powers of ten. */
  lemma DigitCount(s: string)
    requires IsCanonical(s) && s != "0"
    ensures Pow(10, |s| - 1) <= ToNat(s) < Pow(10, |s|)
  {
    ValueBound(10, DigitsOf(s));
    LeadingDigit(s);
    MulMonotone(1, DigitOf(s[0]), Pow(10, |s| - 1));
  }

  lemma ShorterIsLess(s: string, t: string)
    requires IsCanonical(s) && IsCanonical(t) && t != "0" && |s| < |t|
    ensures ToNat(s) < ToNat(t)
  {
    DigitCount(t);
    PowGrows(10, |s|, |t| - 1);
    ValueBound(10, DigitsOf(s));
  }

  /** The order of canonical decimals: by length, then by the first difference. */
  lemma CanonicalOrder(s: string, maximum: string)
    requires IsCanonical(s) && IsCanonical(maximum) && maximum != "0"
    ensures ToNat(s) <= ToNat(maximum)
       <==> |s| < |maximum| || s == maximum || exists i :: 0 <= i < |maximum| && FallsBelow(s, maximum, i)
  {
    if |s| < |maximum| {
      ShorterIsLess(s, maximum);
    } else if |s| > |maximum| {
      ShorterIsLess(maximum, s);
    } else {
      SameLengthOrder(s, maximum);
    }
  }

  // ---------- The pattern decides the bound ----------

  lemma PatternMatches(maximum: string, s: string)
    requires IsCanonical(maximum) && maximum != "0"
    ensures Accepts(Pattern(maximum), s)
       <==> || s == "0" || s == maximum
            || (IsCanonical(s) && s != "0" && |s| < |maximum|)
            || (AllDigits(s) && exists i :: 0 <= i < |maximum| && FallsBelow(s, maximum, i) && (i == 0 ==> s[0] != '0'))
  {
    var shorter := if |maximum| >= 2 then [Shorter(|maximum|)] else [];
    AcceptsAppend([ZERO] + shorter + Branches(maximum, |maximum|), [Literals(maximum)], s);
    AcceptsAppend([ZERO] + shorter, Branches(maximum, |maximum|), s);
    AcceptsAppend([ZERO], shorter, s);
    AcceptsOne(ZERO, s);
    ExactMatches("0", s);
    assert Literals("0") == ZERO;
    if |maximum| >= 2 {
      AcceptsOne(Shorter(|maximum|), s);
      ShorterMatches(|maximum|, s);
    }
    BranchesMatch(maximum, |maximum|, s);
    AcceptsOne(Literals(maximum), s);
    ExactMatches(maximum, s);
  }

  lemma FallsBelowKeepsFirst(s: string, maximum: string, i: nat)
    requires FallsBelow(s, maximum, i) && i > 0
    ensures s[0] == maximum[0]
  {
    assert s[..i][0] == maximum[..i][0];
  }

  /** For every positive canonical maximum, the generated pattern accepts exactly the canonical decimals of
      value at most the maximum. */
  lemma PatternDecides(maximum: string, s: string)
    requires IsCanonical(maximum) && maximum != "0"
    ensures Accepts(Pattern(maximum), s) <==> IsCanonical(s) && ToNat(s) <= ToNat(maximum)
  {
    PatternMatches(maximum, s);
    if s == "0" {
      ToNatCanonical(s);
    } else if IsCanonical(s) {
      CanonicalOrder(s, maximum);
    } else if AllDigits(s) {
      forall i | 0 <= i < |maximum| && FallsBelow(s, maximum, i) ensures i == 0 && s[0] == '0' {
        if i > 0 {
          FallsBelowKeepsFirst(s, maximum, i);
        }
      }
    }
  }

  // ---------- 2^256 - 1 ----------

  const UINT256_PATTERN: seq<Alternative> := Pattern(FromNat(Pow(2, 256) - 1))

  lemma TwoTo256()
    ensures Pow(2, 256) == 115792089237316195423570985008687907853269984665640564039457584007913129639936
  {
    assert Pow(2, 8) == 256;
    PowAdd(2, 8, 8);
    assert Pow(2, 16) == 65536;
    PowAdd(2, 16, 16);
    assert Pow(2, 32) == 4294967296;
    PowAdd(2, 32, 32);
    assert Pow(2, 64) == 18446744073709551616;
    PowAdd(2, 64, 64);
    assert Pow(2, 128) == 340282366920938463463374607431768211456;
    PowAdd(2, 128, 128);
    assert Pow(2, 256) == 115792089237316195423570985008687907853269984665640564039457584007913129639936;
  }

  /** A string is accepted exactly when it is the canonical decimal of an unsigned 256-bit integer. */
  lemma Uint256PatternDecides(s: string)
    ensures Accepts(UINT256_PATTERN, s) <==> IsCanonical(s) && ToNat(s) < Pow(2, 256)
  {
    var maximum := FromNat(Pow(2, 256) - 1);
    FromNatCanonical(Pow(2, 256) - 1);
    TwoTo256();
    PatternDecides(maximum, s);
  }

  lemma TenTo77()
    ensures Pow(10, 77) == 100000000000000000000000000000000000000000000000000000000000000000000000000000
    ensures Pow(10, 78) == 1000000000000000000000000000000000000000000000000000000000000000000000000000000
  {
    assert Pow(10, 11) == 100000000000;
    PowAdd(10, 11, 11);
    PowAdd(10, 22, 22);
    PowAdd(10, 44, 22);
    PowAdd(10, 66, 11);
    assert Pow(10, 22) == 10000000000000000000000;
    assert Pow(10, 44) == 100000000000000000000000000000000000000000000;
    assert Pow(10, 66) == 1000000000000000000000000000000000000000000000000000000000000000000;
  }

  /** The maximum has 78 digits, the width the generated pattern is written for. */
  lemma Uint256Digits()
    ensures |FromNat(Pow(2, 256) - 1)| == 78
  {
    var s := FromNat(Pow(2, 256) - 1);
    FromNatCanonical(Pow(2, 256) - 1);
    TwoTo256();
    TenTo77();
    ToNatCanonical(s);
    DigitCount(s);
    if |s| < 78 {
      PowGrows(10, |s|, 77);
    } else if |s| > 78 {
      PowGrows(10, 78, |s| - 1);
    }
  }
}
