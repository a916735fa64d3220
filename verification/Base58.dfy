// Base58 as the SDK decodes it, with the encoder that undoes it.
module Base58 {
  import opened Wrappers
  import opened Lists
  import opened Numerals

  predicate InAlphabet(c: char) {
    '1' <= c <= '9' || ('A' <= c <= 'Z' && c != 'I' && c != 'O') || ('a' <= c <= 'z' && c != 'l')
  }

  /** The position of a character in the alphabet: the digits without '0', the upper-case letters
      without 'I' and 'O', the lower-case letters without 'l', each in ASCII order. */
  function DigitOf(c: char): (d: nat)
    requires InAlphabet(c)
    ensures d < 58
  {
    var n := c as int;
    if c <= '9' then n - 49
    else if c <= 'H' then n - 56
    else if c <= 'N' then n - 57
    else if c <= 'Z' then n - 58
    else if c <= 'k' then n - 64
    else n - 65
  }

  function CharOf(d: nat): (c: char)
    requires d < 58
    ensures InAlphabet(c) && DigitOf(c) == d
  {
    if d < 9 then (d + 49) as char
    else if d < 17 then (d + 56) as char
    else if d < 22 then (d + 57) as char
    else if d < 33 then (d + 58) as char
    else if d < 44 then (d + 64) as char
    else (d + 65) as char
  }

  lemma CharOfDigitOf(c: char)
    requires InAlphabet(c)
    ensures CharOf(DigitOf(c)) == c
  {
  }

  const ALPHABET: string :=
    "123456789" + "ABCDEFGH" + "JKLMN" + "PQRSTUVWXYZ" + "abcdefghijk" + "mnopqrstuvwxyz"

  lemma AlphabetAt(d: nat)
    requires d < 58
    ensures |ALPHABET| == 58 && ALPHABET[d] == CharOf(d)
  {
    if d < 9 {
      assert ALPHABET[d] == "123456789"[d];
    } else if d < 17 {
      assert ALPHABET[d] == "ABCDEFGH"[d - 9];
    } else if d < 22 {
      assert ALPHABET[d] == "JKLMN"[d - 17];
    } else if d < 33 {
      assert ALPHABET[d] == "PQRSTUVWXYZ"[d - 22];
    } else if d < 44 {
      assert ALPHABET[d] == "abcdefghijk"[d - 33];
    } else {
      assert ALPHABET[d] == "mnopqrstuvwxyz"[d - 44];
    }
  }

  /** The digits are the positions in the alphabet of the source. */
  lemma AlphabetInOrder(c: char)
    ensures InAlphabet(c) <==> c in ALPHABET
    ensures InAlphabet(c) ==> ALPHABET[DigitOf(c)] == c
  {
    if InAlphabet(c) {
      CharOfDigitOf(c);
      AlphabetAt(DigitOf(c));
    }
    if c in ALPHABET {
      AlphabetAt(0);
      var d: nat :| d < |ALPHABET| && ALPHABET[d] == c;
      AlphabetAt(d);
    }
  }

  predicate IsBase58(s: string) {
    forall i :: 0 <= i < |s| ==> InAlphabet(s[i])
  }

  function DigitsOf(s: string): (ds: seq<nat>)
    requires IsBase58(s)
    ensures |ds| == |s| && AreDigits(58, ds)
  {
    seq(|s|, i requires 0 <= i < |s| => DigitOf(s[i]))
  }

  function CharsOf(ds: seq<nat>): (s: string)
    requires AreDigits(58, ds)
    ensures |s| == |ds| && IsBase58(s)
  {
    seq(|ds|, i requires 0 <= i < |ds| => CharOf(ds[i]))
  }

  lemma CharsOfDigits(s: string)
    requires IsBase58(s)
    ensures CharsOf(DigitsOf(s)) == s
  {
    forall i | 0 <= i < |s| ensures CharsOf(DigitsOf(s))[i] == s[i] {
      CharOfDigitOf(s[i]);
      assert DigitsOf(s)[i] == DigitOf(s[i]);
    }
  }

  lemma DigitsOfChars(ds: seq<nat>)
    requires AreDigits(58, ds)
    ensures DigitsOf(CharsOf(ds)) == ds
  {
    forall i | 0 <= i < |ds| ensures DigitsOf(CharsOf(ds))[i] == ds[i] {
      assert CharsOf(ds)[i] == CharOf(ds[i]);
    }
  }

  /** How many times `x` stands at the front. */
  function Leading<T(==)>(x: T, s: seq<T>): nat {
    if s == [] || s[0] != x then 0 else 1 + Leading(x, s[1..])
  }

  lemma {:induction false} LeadingIs<T>(x: T, s: seq<T>, k: nat)
    ensures Leading(x, s) == k
       <==> k <= |s| && (forall i :: 0 <= i < k ==> s[i] == x) && (k < |s| ==> s[k] != x)
  {
    if s != [] && s[0] == x {
      if k > 0 {
        LeadingIs(x, s[1..], k - 1);
        assert forall i :: 0 < i < |s| ==> s[i] == s[1..][i - 1];
      }
    }
  }

  function Zeros(k: nat): (z: seq<nat>)
    ensures |z| == k
  {
    seq(k, _ => 0)
  }

  ghost function Decoded(s: string): seq<nat>
    requires IsBase58(s)
  {
    DigitsValue(256, Value(58, DigitsOf(s)));
    Zeros(Leading('1', s)) + Digits(256, Value(58, DigitsOf(s)))
  }

  ghost function Encoded(bytes: seq<nat>): string {
    DigitsValue(58, Value(256, bytes));
    seq(Leading(0, bytes), _ => '1') + CharsOf(Digits(58, Value(256, bytes)))
  }

  /** Splits a digit string into its leading zeros and a canonical numeral. */
  lemma SplitLeading(b: nat, ds: seq<nat>)
    requires b >= 2 && AreDigits(b, ds)
    ensures var k := Leading(0, ds);
      && k <= |ds|
      && ds == Zeros(k) + ds[k..]
      && Canonical(b, ds[k..])
      && Value(b, ds[k..]) == Value(b, ds)
      && Digits(b, Value(b, ds)) == ds[k..]
  {
    var k := Leading(0, ds);
    LeadingIs(0, ds, k);
    assert ds == Zeros(k) + ds[k..];
    ValueLeadingZeros(b, k, ds[k..]);
    ValueDigits(b, ds[k..]);
  }

  lemma LeadingOfPadded(b: nat, k: nat, n: nat)
    requires b >= 2
    ensures Leading(0, Zeros(k) + Digits(b, n)) == k
    ensures Value(b, Zeros(k) + Digits(b, n)) == n
  {
    DigitsValue(b, n);
    LeadingIs(0, Zeros(k) + Digits(b, n), k);
    ValueLeadingZeros(b, k, Digits(b, n));
  }

  lemma LeadingOnes(s: string)
    requires IsBase58(s)
    ensures Leading('1', s) == Leading(0, DigitsOf(s))
  {
    var k := Leading('1', s);
    LeadingIs('1', s, k);
    assert forall i :: 0 <= i < k ==> DigitsOf(s)[i] == DigitOf(s[i]) == 0;
    if k < |s| {
      assert DigitsOf(s)[k] == DigitOf(s[k]);
      CharOfDigitOf(s[k]);
    }
    LeadingIs(0, DigitsOf(s), k);
  }

  lemma CharsOfDrop(ds: seq<nat>, k: nat)
    requires AreDigits(58, ds) && k <= |ds|
    ensures AreDigits(58, ds[k..]) && CharsOf(ds[k..]) == CharsOf(ds)[k..]
  {
  }

  lemma OnesThenRest(s: string, k: nat)
    requires k == Leading('1', s)
    ensures k <= |s| && seq(k, _ => '1') + s[k..] == s
  {
    LeadingIs('1', s, k);
  }

  /** Encoding undoes decoding, leading '1's included, so decoding is injective. */
  lemma EncodedDecoded(s: string)
    requires IsBase58(s)
    ensures Encoded(Decoded(s)) == s
  {
    var ds, k := DigitsOf(s), Leading('1', s);
    LeadingOnes(s);
    SplitLeading(58, ds);
    LeadingOfPadded(256, k, Value(58, ds));
    CharsOfDigits(s);
    CharsOfDrop(ds, k);
    OnesThenRest(s, k);
  }

  lemma DecodedInjective(s: string, t: string)
    requires IsBase58(s) && IsBase58(t) && Decoded(s) == Decoded(t)
    ensures s == t
  {
    EncodedDecoded(s);
    EncodedDecoded(t);
  }

  lemma DigitsOfEncoded(k: nat, ds: seq<nat>)
    requires AreDigits(58, ds)
    ensures IsBase58(seq(k, _ => '1') + CharsOf(ds))
    ensures DigitsOf(seq(k, _ => '1') + CharsOf(ds)) == Zeros(k) + ds
  {
    var s := seq(k, _ => '1') + CharsOf(ds);
    DigitsOfChars(ds);
    assert forall i :: k <= i < |s| ==> s[i] == CharsOf(ds)[i - k];
    forall i | 0 <= i < |s| ensures DigitsOf(s)[i] == (Zeros(k) + ds)[i] {
      assert i >= k ==> DigitsOf(CharsOf(ds))[i - k] == ds[i - k];
    }
  }

  /** Decoding undoes encoding: every byte string is the decoding of exactly one base58 string. */
  lemma DecodedEncoded(bytes: seq<nat>)
    requires AreDigits(256, bytes)
    ensures IsBase58(Encoded(bytes)) && Decoded(Encoded(bytes)) == bytes
  {
    var n, k := Value(256, bytes), Leading(0, bytes);
    SplitLeading(256, bytes);
    DigitsValue(58, n);
    DigitsOfEncoded(k, Digits(58, n));
    LeadingOfPadded(58, k, n);
    LeadingOnes(Encoded(bytes));
  }

  lemma {:induction false} PowMonotone(a: nat, b: nat, k: nat)
    requires 1 <= a <= b
    ensures Pow(a, k) <= Pow(b, k)
  {
    if k > 0 {
      PowMonotone(a, b, k - 1);
      MulMonotone(Pow(a, k - 1), Pow(b, k - 1), a);
      MulMonotone(a, b, Pow(b, k - 1));
    }
  }

  lemma {:induction false} DigitsLength(b: nat, n: nat, k: nat)
    requires b >= 2 && n < Pow(b, k)
    ensures |Digits(b, n)| <= k
    decreases k
  {
    if n != 0 {
      var q, r := DivModParts(n, b);
      if q >= Pow(b, k - 1) {
        MulMonotone(Pow(b, k - 1), q, b);
      }
      DigitsLength(b, q, k - 1);
    }
  }

  lemma ConvertedLength(b: nat, c: nat, ds: seq<nat>)
    requires 2 <= b <= c && Canonical(b, ds)
    ensures |Digits(c, Value(b, ds))| <= |ds|
  {
    ValueBound(b, ds);
    PowMonotone(b, c, |ds|);
    DigitsLength(c, Value(b, ds), |ds|);
  }

  /** A decoding consists of bytes, and is never longer than its text. */
  lemma DecodedLength(s: string)
    requires IsBase58(s)
    ensures |Decoded(s)| <= |s|
    ensures AreDigits(256, Decoded(s))
  {
    LeadingOnes(s);
    SplitLeading(58, DigitsOf(s));
    ConvertedLength(58, 256, DigitsOf(s)[Leading('1', s)..]);
    DigitsValue(256, Value(58, DigitsOf(s)));
  }

  // ---------- The loops of the SDK ----------

  /** The big integer a text stands for, digit by digit; None at a foreign character. */
  method AccumulateInteger(value: string) returns (integer: Option<nat>)
    ensures IsBase58(value) ==> integer == Some(Value(58, DigitsOf(value)))
    ensures !IsBase58(value) ==> integer == None
  {
    var n := 0;
    for i := 0 to |value|
      invariant IsBase58(value[..i])
      invariant n == Value(58, DigitsOf(value[..i]))
    {
      if !InAlphabet(value[i]) {
        return None;
      }
      assert value[..i + 1] == value[..i] + [value[i]];
      assert DigitsOf(value[..i + 1]) == DigitsOf(value[..i]) + [DigitOf(value[i])];
      ValueSnoc(58, DigitsOf(value[..i]), DigitOf(value[i]));
      n := n * 58 + DigitOf(value[i]);
    }
    assert value[..|value|] == value;
    integer := Some(n);
  }

  method CountLeadingOnes(value: string) returns (zeroes: nat)
    ensures zeroes == Leading('1', value)
  {
    zeroes := 0;
    while zeroes < |value| && value[zeroes] == '1'
      invariant zeroes <= |value|
      invariant forall i :: 0 <= i < zeroes ==> value[i] == '1'
    {
      zeroes := zeroes + 1;
    }
    LeadingIs('1', value, zeroes);
  }

  lemma Associate(a: seq<nat>, b: seq<nat>, c: seq<nat>)
    ensures a + b + c == a + (b + c)
  {
  }

  /** One byte moves from the number to the list that will be reversed. */
  lemma NextByte(rest: nat, q: nat, r: nat, little: seq<nat>)
    requires rest > 0 && q == rest / 256 && r == rest % 256
    ensures Digits(256, rest) + Reversed(little) == Digits(256, q) + Reversed(little + [r])
  {
    ReversedSnoc(little, r);
    Associate(Digits(256, q), [r], Reversed(little));
  }

  /** The bytes of a base58 text; None where the SDK throws. */
  method DecodeBase58Bytes(value: string) returns (bytes: Option<seq<nat>>)
    ensures bytes.Some? <==> IsBase58(value)
    ensures IsBase58(value) ==> bytes.value == Decoded(value)
  {
    var integer := AccumulateInteger(value);
    if integer.None? {
      return None;
    }
    var rest := integer.value;
    var little: seq<nat> := [];
    DigitsValue(256, rest);
    while rest > 0
      invariant Digits(256, integer.value) == Digits(256, rest) + Reversed(little)
    {
      ghost var q, r := DivModParts(rest, 256);
      NextByte(rest, q, r, little);
      little := little + [rest % 256];
      rest := rest / 256;
    }
    var zeroes := CountLeadingOnes(value);
    bytes := Some(Zeros(zeroes) + Reversed(little));
  }

  /** The number of bytes a base58 text decodes to, without building them; -1 if it is not base58. */
  method DecodeBase58Length(value: string) returns (length: int)
    ensures IsBase58(value) ==> length == |Decoded(value)|
    ensures !IsBase58(value) ==> length == -1
  {
    var integer := AccumulateInteger(value);
    if integer.None? {
      return -1;
    }
    var rest := integer.value;
    length := 0;
    while rest > 0
      invariant length + |Digits(256, rest)| == |Digits(256, integer.value)|
    {
      ghost var q, r := DivModParts(rest, 256);
      rest := rest / 256;
      length := length + 1;
    }
    var ones := CountLeadingOnes(value);
    length := length + ones;
  }
}
