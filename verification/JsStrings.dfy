// Strings as JavaScript orders and quotes them.
module JsStrings {
  import opened Sorting

  /** The position of a character in the order of UTF-16 code units: a character outside the
      basic plane starts with a surrogate, which comes before U+E000. */
  function Rank(c: char): int {
    if c as int < 0xE000 || c as int > 0xFFFF then c as int else c as int + 0x11_0000
  }

  predicate Less(a: string, b: string) {
    if b == [] then false
    else if a == [] then true
    else if a[0] == b[0] then Less(a[1..], b[1..])
    else Rank(a[0]) < Rank(b[0])
  }

  predicate AtMost(a: string, b: string) {
    a == b || Less(a, b)
  }

  lemma {:induction false} LessTotal(a: string, b: string)
    ensures Less(a, b) || Less(b, a) || a == b
    ensures !(Less(a, b) && (Less(b, a) || a == b))
  {
    if a != [] && b != [] && a[0] == b[0] {
      LessTotal(a[1..], b[1..]);
      assert a == [a[0]] + a[1..] && b == [b[0]] + b[1..];
    }
  }

  lemma {:induction false} LessTransitive(a: string, b: string, c: string)
    requires Less(a, b) && Less(b, c)
    ensures Less(a, c)
  {
    if a != [] && a[0] == b[0] == c[0] {
      LessTransitive(a[1..], b[1..], c[1..]);
    }
  }

  lemma AtMostIsOrder()
    ensures TotalPreorder(AtMost)
    ensures forall a, b :: AtMost(a, b) && AtMost(b, a) ==> a == b
  {
    forall a, b ensures AtMost(a, b) || AtMost(b, a) {
      LessTotal(a, b);
    }
    forall a, b | AtMost(a, b) && AtMost(b, a) ensures a == b {
      LessTotal(a, b);
    }
    forall a, b, c | AtMost(a, b) && AtMost(b, c) ensures AtMost(a, c) {
      if Less(a, b) && Less(b, c) {
        LessTransitive(a, b, c);
      }
    }
  }

  // ---------- The order, by code units ----------

  /** The UTF-16 code units of a character: itself in the basic plane, a surrogate pair outside it. */
  function Units(c: char): (units: seq<nat>)
    ensures units != []
  {
    var n := c as int;
    if n <= 0xFFFF then [n] else [0xD800 + (n - 0x1_0000) / 0x400, 0xDC00 + (n - 0x1_0000) % 0x400]
  }

  function CodeUnits(s: string): seq<nat> {
    if s == "" then [] else Units(s[0]) + CodeUnits(s[1..])
  }

  /** `u` and `v` agree on their first `k` units, and there `u` ends or has the smaller unit. */
  predicate DepartsAt(u: seq<nat>, v: seq<nat>, k: nat) {
    k <= |u| && k < |v| && u[..k] == v[..k] && (k == |u| || u[k] < v[k])
  }

  /** `u` is a proper prefix of `v`, or has the smaller unit where they first differ. */
  ghost predicate UnitsBefore(u: seq<nat>, v: seq<nat>) {
    exists k :: DepartsAt(u, v, k)
  }

  lemma SamePrefix(p: seq<nat>, u: seq<nat>, v: seq<nat>)
    ensures UnitsBefore(p + u, p + v) <==> UnitsBefore(u, v)
  {
    if k: nat :| DepartsAt(p + u, p + v, k) {
      assert k >= |p| by {
        assert k < |p| ==> (p + u)[k] == p[k] == (p + v)[k];
      }
      assert (p + u)[..k] == p + u[..k - |p|] && (p + v)[..k] == p + v[..k - |p|];
      assert u[..k - |p|] == (p + u)[..k][|p|..] && v[..k - |p|] == (p + v)[..k][|p|..];
      assert DepartsAt(u, v, k - |p|);
    }
    if k: nat :| DepartsAt(u, v, k) {
      assert (p + u)[..|p| + k] == p + u[..k] && (p + v)[..|p| + k] == p + v[..k];
      assert DepartsAt(p + u, p + v, |p| + k);
    }
  }

  lemma FirstDiffers(u: seq<nat>, v: seq<nat>)
    requires u != [] && v != [] && u[0] != v[0]
    ensures UnitsBefore(u, v) <==> u[0] < v[0]
  {
    if u[0] < v[0] {
      assert DepartsAt(u, v, 0);
    }
    if k: nat :| DepartsAt(u, v, k) {
      assert k > 0 ==> u[..k][0] == v[..k][0];
    }
  }

  lemma SecondDiffers(u: seq<nat>, v: seq<nat>)
    requires |u| >= 2 && |v| >= 2 && u[0] == v[0] && u[1] != v[1]
    ensures UnitsBefore(u, v) <==> u[1] < v[1]
  {
    SamePrefix([u[0]], u[1..], v[1..]);
    assert u == [u[0]] + u[1..] && v == [u[0]] + v[1..];
    FirstDiffers(u[1..], v[1..]);
  }

  lemma RankIsUnits(c: char, d: char, r: seq<nat>, r': seq<nat>)
    requires c != d
    ensures Rank(c) < Rank(d) <==> UnitsBefore(Units(c) + r, Units(d) + r')
  {
    var (u, v) := (Units(c) + r, Units(d) + r');
    if Units(c)[0] != Units(d)[0] {
      FirstDiffers(u, v);
    } else {
      SecondDiffers(u, v);
    }
  }

  /** Keys are compared by their code units. */
  lemma {:induction false} LessIsUnits(a: string, b: string)
    ensures Less(a, b) <==> UnitsBefore(CodeUnits(a), CodeUnits(b))
  {
    if b == "" {
    } else if a == "" {
      assert DepartsAt([], CodeUnits(b), 0);
    } else if a[0] == b[0] {
      LessIsUnits(a[1..], b[1..]);
      SamePrefix(Units(a[0]), CodeUnits(a[1..]), CodeUnits(b[1..]));
    } else {
      RankIsUnits(a[0], b[0], CodeUnits(a[1..]), CodeUnits(b[1..]));
    }
  }

  // ---------- String literals ----------

  function HexDigit(n: nat): char
    requires n < 16
  {
    if n < 10 then (48 + n) as char else (87 + n) as char
  }

  /** One character of a JSON string literal as `JSON.stringify` writes it. */
  function Escape(c: char): (e: string)
    ensures e != []
  {
    if c == '"' then ['\\', '"']
    else if c == '\\' then ['\\', '\\']
    else if c as int == 8 then ['\\', 'b']
    else if c as int == 9 then ['\\', 't']
    else if c as int == 10 then ['\\', 'n']
    else if c as int == 12 then ['\\', 'f']
    else if c as int == 13 then ['\\', 'r']
    else if (c as int) < 32 then ['\\', 'u', '0', '0', HexDigit(c as int / 16), HexDigit(c as int % 16)]
    else [c]
  }

  function EscapeAll(s: string): string {
    if s == [] then [] else Escape(s[0]) + EscapeAll(s[1..])
  }

  /** The rest of a literal, its closing quote, and what follows it. */
  function Tail(s: string, r: string): string {
    EscapeAll(s) + (['"'] + r)
  }

  function Quote(s: string): string {
    ['"'] + Tail(s, [])
  }

  const HEX: string := "0123456789abcdef"

  /** The two-character escapes, the numbered ones of the other control characters, and no others. */
  lemma EscapesExactly(c: char)
    ensures c in "\"\\" <==> Escape(c) == ['\\', c]
    ensures Escape(8 as char) == "\\b" && Escape(9 as char) == "\\t" && Escape(10 as char) == "\\n"
    ensures Escape(12 as char) == "\\f" && Escape(13 as char) == "\\r"
    ensures (c as int) < 32 && c as int !in {8, 9, 10, 12, 13} ==>
              Escape(c) == "\\u00" + [HEX[c as int / 16], HEX[c as int % 16]]
    ensures c as int >= 32 && c !in "\"\\" ==> Escape(c) == [c]
  {
  }

  /** No escape is the beginning of another one. */
  lemma EscapeDistinct(c: char, d: char)
    requires |Escape(c)| <= |Escape(d)| && Escape(c) == Escape(d)[..|Escape(c)|]
    ensures c == d
  {
    assert Escape(c)[0] == Escape(d)[0];
    if Escape(c)[0] == '\\' {
      assert Escape(c)[1] == Escape(d)[1];
      if Escape(c)[1] == 'u' {
        assert Escape(c)[4] == Escape(d)[4] && Escape(c)[5] == Escape(d)[5];
      }
    }
  }

  /** An escape is recognised at the head of a text. */
  lemma EscapePrefixFree(c: char, d: char, r: string, r': string)
    requires Escape(c) + r == Escape(d) + r'
    ensures c == d && r == r'
  {
    var text := Escape(c) + r;
    assert Escape(c) == text[..|Escape(c)|] && Escape(d) == text[..|Escape(d)|];
    if |Escape(c)| <= |Escape(d)| {
      assert Escape(c) == Escape(d)[..|Escape(c)|];
      EscapeDistinct(c, d);
    } else {
      assert Escape(d) == Escape(c)[..|Escape(d)|];
      EscapeDistinct(d, c);
    }
    assert r == text[|Escape(c)|..] && r' == text[|Escape(d)|..];
  }

  lemma TailUnfolds(s: string, r: string)
    requires s != []
    ensures Tail(s, r) == Escape(s[0]) + Tail(s[1..], r)
    ensures Tail(s, r)[0] != '"'
  {
    assert Escape(s[0])[0] != '"';
  }

  /** A literal ends where its closing quote stands, and determines the string. */
  lemma {:induction false} QuotedSelfDelimiting(s: string, t: string, r: string, r': string)
    requires Tail(s, r) == Tail(t, r')
    ensures s == t && r == r'
  {
    if s != [] {
      TailUnfolds(s, r);
    }
    if t != [] {
      TailUnfolds(t, r');
    }
    if s != [] && t != [] {
      EscapePrefixFree(s[0], t[0], Tail(s[1..], r), Tail(t[1..], r'));
      QuotedSelfDelimiting(s[1..], t[1..], r, r');
      assert s == [s[0]] + s[1..] && t == [t[0]] + t[1..];
    } else {
      assert Tail([], r)[0] == '"' && Tail([], r')[0] == '"';
      assert Tail([], r)[1..] == r && Tail([], r')[1..] == r';
    }
  }
}
