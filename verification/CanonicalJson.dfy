// The canonical JSON text under every hash: members in key order, no white space. Compare the
// property sorting of section 3.2.3 of RFC 8785.
module CanonicalJson {
  import opened Wrappers
  import opened Sorting
  import opened JsStrings
  import Ascii
  import Decimals

  /** A JavaScript value as it reaches the printer. Members are in insertion order. */
  datatype Json =
    | Undefined
    | Null
    | Bool(b: bool)
    | Number(n: int)
    | NonFinite
    | Str(s: string)
    | Arr(items: seq<Json>)
    | Obj(members: seq<Member>)

  datatype Member = Member(key: string, value: Json)

  datatype CanonicalError = UndefinedValue | NonFiniteNumber | UnsafeKey

  predicate Forbidden(key: string) {
    key in ["__proto__", "prototype", "constructor"]
  }

  function KeyAtMost(x: Member, y: Member): bool {
    AtMost(x.key, y.key)
  }

  function PrintInt(n: int): string {
    if n < 0 then "-" + Decimals.FromNat(-n) else Decimals.FromNat(n)
  }

  /** Each part preceded by a comma. */
  function Commas(parts: seq<string>): string {
    if parts == [] then "" else "," + parts[0] + Commas(parts[1..])
  }

  function Join(parts: seq<string>): string {
    if parts == [] then "" else parts[0] + Commas(parts[1..])
  }

  lemma SortedMembersInside(members: seq<Member>)
    ensures forall i :: 0 <= i < |Sort(KeyAtMost, members)| ==> Sort(KeyAtMost, members)[i] in members
  {
    SortPermutes(KeyAtMost, members);
    forall i | 0 <= i < |Sort(KeyAtMost, members)| ensures Sort(KeyAtMost, members)[i] in members {
      assert Sort(KeyAtMost, members)[i] in multiset(Sort(KeyAtMost, members));
    }
  }

  function Canonicalize(v: Json): Result<string, CanonicalError>
    decreases v, 1, 0
  {
    match v
    case Undefined => Failure(UndefinedValue)
    case NonFinite => Failure(NonFiniteNumber)
    case Null => Success("null")
    case Bool(b) => Success(if b then "true" else "false")
    case Number(n) => Success(PrintInt(n))
    case Str(s) => Success(Quote(s))
    case Arr(items) =>
      var parts := CanonicalizeItems(v, items);
      if parts.Failure? then Failure(parts.error) else Success("[" + Join(parts.value) + "]")
    case Obj(members) =>
      SortedMembersInside(members);
      var parts := CanonicalizeMembers(v, Sort(KeyAtMost, members));
      if parts.Failure? then Failure(parts.error) else Success("{" + Join(parts.value) + "}")
  }

  function CanonicalizeItems(v: Json, items: seq<Json>): (r: Result<seq<string>, CanonicalError>)
    requires v.Arr? && forall i :: 0 <= i < |items| ==> items[i] in v.items
    ensures r.Success? ==> |r.value| == |items|
    decreases v, 0, |items|
  {
    if items == [] then Success([])
    else
      assert items[0] in v.items;
      var part := Canonicalize(items[0]);
      if part.Failure? then Failure(part.error)
      else
        var rest := CanonicalizeItems(v, items[1..]);
        if rest.Failure? then rest else Success([part.value] + rest.value)
  }

  function CanonicalizeMembers(v: Json, members: seq<Member>): (r: Result<seq<string>, CanonicalError>)
    requires v.Obj? && forall i :: 0 <= i < |members| ==> members[i] in v.members
    ensures r.Success? ==> |r.value| == |members|
    decreases v, 0, |members|
  {
    if members == [] then Success([])
    else if Forbidden(members[0].key) then Failure(UnsafeKey)
    else
      assert members[0] in v.members;
      var part := Canonicalize(members[0].value);
      if part.Failure? then Failure(part.error)
      else
        var rest := CanonicalizeMembers(v, members[1..]);
        if rest.Failure? then rest else Success([Quote(members[0].key) + ":" + part.value] + rest.value)
  }

  // ---------- What a value means ----------

  /** A JSON value in which an object is the map it denotes: member order is gone. */
  datatype Meaning =
    | Missing
    | MNull
    | MBool(b: bool)
    | MNumber(n: int)
    | MStr(s: string)
    | MArr(items: seq<Meaning>)
    | MObj(members: map<string, Meaning>)

  ghost function Denote(v: Json): Meaning {
    match v
    case Undefined => Missing
    case NonFinite => Missing
    case Null => MNull
    case Bool(b) => MBool(b)
    case Number(n) => MNumber(n)
    case Str(s) => MStr(s)
    case Arr(items) => MArr(DenoteItems(items))
    case Obj(members) => MObj(DenoteMembers(members))
  }

  ghost function DenoteItems(items: seq<Json>): seq<Meaning> {
    if items == [] then [] else [Denote(items[0])] + DenoteItems(items[1..])
  }

  ghost function DenoteMembers(members: seq<Member>): map<string, Meaning> {
    if members == [] then map[]
    else DenoteMembers(members[1..])[members[0].key := Denote(members[0].value)]
  }

  ghost predicate UniqueKeys(members: seq<Member>) {
    forall i, j :: 0 <= i < |members| && 0 <= j < |members| && members[i].key == members[j].key ==> i == j
  }

  /** JavaScript objects never have one key twice, at any depth. */
  ghost predicate WellFormed(v: Json) {
    match v
    case Arr(items) => forall i :: 0 <= i < |items| ==> WellFormed(items[i])
    case Obj(members) =>
      && UniqueKeys(members)
      && forall i :: 0 <= i < |members| ==> WellFormed(members[i].value)
    case _ => true
  }

  /** Nothing undefined, no infinity or NaN, and no dangerous key, at any depth. */
  ghost predicate Permitted(v: Json) {
    match v
    case Undefined => false
    case NonFinite => false
    case Arr(items) => forall i :: 0 <= i < |items| ==> Permitted(items[i])
    case Obj(members) =>
      forall i :: 0 <= i < |members| ==> !Forbidden(members[i].key) && Permitted(members[i].value)
    case _ => true
  }

  // ---------- When the printer throws ----------

  lemma SortedHasAll(members: seq<Member>, m: Member)
    ensures m in members <==> m in Sort(KeyAtMost, members)
  {
    SortPermutes(KeyAtMost, members);
    assert m in members <==> m in multiset(members);
    assert m in Sort(KeyAtMost, members) <==> m in multiset(Sort(KeyAtMost, members));
  }

  lemma {:induction false} ItemsSucceed(v: Json, items: seq<Json>)
    requires v.Arr? && forall i :: 0 <= i < |items| ==> items[i] in v.items
    ensures CanonicalizeItems(v, items).Success? <==> forall i :: 0 <= i < |items| ==> Permitted(items[i])
    decreases v, 0, |items|
  {
    if items != [] {
      assert items[0] in v.items;
      SucceedsExactly(items[0]);
      ItemsSucceed(v, items[1..]);
      assert forall i :: 1 <= i < |items| ==> items[i] == items[1..][i - 1];
    }
  }

  lemma {:induction false} MembersSucceed(v: Json, members: seq<Member>)
    requires v.Obj? && forall i :: 0 <= i < |members| ==> members[i] in v.members
    ensures CanonicalizeMembers(v, members).Success?
       <==> forall i :: 0 <= i < |members| ==> !Forbidden(members[i].key) && Permitted(members[i].value)
    decreases v, 0, |members|
  {
    if members != [] {
      assert members[0] in v.members;
      SucceedsExactly(members[0].value);
      MembersSucceed(v, members[1..]);
      assert forall i :: 1 <= i < |members| ==> members[i] == members[1..][i - 1];
    }
  }

  /** The printer throws exactly on values with something unprintable in them. */
  lemma {:induction false} SucceedsExactly(v: Json)
    ensures Canonicalize(v).Success? <==> Permitted(v)
    decreases v, 1, 0
  {
    match v
    case Arr(items) => ItemsSucceed(v, items);
    case Obj(members) =>
      var sorted := Sort(KeyAtMost, members);
      SortedMembersInside(members);
      MembersSucceed(v, sorted);
      if forall i :: 0 <= i < |members| ==> !Forbidden(members[i].key) && Permitted(members[i].value) {
        forall i | 0 <= i < |sorted| ensures !Forbidden(sorted[i].key) && Permitted(sorted[i].value) {
          assert sorted[i] in members;
        }
      } else {
        var i :| 0 <= i < |members| && !(!Forbidden(members[i].key) && Permitted(members[i].value));
        SortedHasAll(members, members[i]);
        var j :| 0 <= j < |sorted| && sorted[j] == members[i];
      }
    case _ =>
  }

  // ---------- The text determines the meaning ----------

  /** What may follow a printed value: the end, or a character that cannot continue it. */
  ghost predicate Follows(r: string) {
    r == "" || r[0] in [',', ']', '}']
  }

  lemma {:induction false} DigitRun(a: string, b: string, r: string, r': string)
    requires Decimals.AllDigits(a) && Decimals.AllDigits(b) && Follows(r) && Follows(r')
    requires a + r == b + r'
    ensures a == b && r == r'
  {
    var x, y := a + r, b + r';
    assert forall i :: 0 <= i < |a| ==> x[i] == a[i];
    assert forall i :: 0 <= i < |b| ==> y[i] == b[i];
    assert r != "" ==> x[|a|] == r[0];
    assert r' != "" ==> y[|b|] == r'[0];
    assert |a| == |b|;
    assert a == (a + r)[..|a|] && b == (b + r')[..|b|];
    assert r == (a + r)[|a|..] && r' == (b + r')[|b|..];
  }

  lemma NatDetermined(n: nat, m: nat, r: string, r': string)
    requires Follows(r) && Follows(r') && Decimals.FromNat(n) + r == Decimals.FromNat(m) + r'
    ensures n == m && r == r'
  {
    Decimals.FromNatCanonical(n);
    Decimals.FromNatCanonical(m);
    DigitRun(Decimals.FromNat(n), Decimals.FromNat(m), r, r');
  }

  lemma HeadSplit(c: char, x: string, d: char, y: string)
    requires [c] + x == [d] + y
    ensures c == d && x == y
  {
    assert ([c] + x)[0] == c && ([d] + y)[0] == d;
    assert ([c] + x)[1..] == x && ([d] + y)[1..] == y;
  }

  lemma PrintIntHead(n: int)
    ensures PrintInt(n) != "" && (PrintInt(n)[0] == '-' <==> n < 0)
    ensures n >= 0 ==> Ascii.IsDigit(PrintInt(n)[0])
  {
    Decimals.FromNatCanonical(if n < 0 then -n else n);
  }

  lemma SignDetermined(n: int, m: int, r: string, r': string)
    requires PrintInt(n) + r == PrintInt(m) + r'
    ensures n < 0 <==> m < 0
  {
    PrintIntHead(n);
    PrintIntHead(m);
    assert (PrintInt(n) + r)[0] == PrintInt(n)[0] && (PrintInt(m) + r')[0] == PrintInt(m)[0];
  }

  lemma Regroup(a: string, b: string, c: string)
    ensures a + b + c == a + (b + c)
  {
  }

  lemma DropDash(x: string, y: string, r: string, r': string)
    requires "-" + x + r == "-" + y + r'
    ensures x + r == y + r'
  {
    Regroup("-", x, r);
    Regroup("-", y, r');
    HeadSplit('-', x + r, '-', y + r');
  }

  lemma NegativeDetermined(n: int, m: int, r: string, r': string)
    requires n < 0 && m < 0 && Follows(r) && Follows(r')
    requires "-" + Decimals.FromNat(-n) + r == "-" + Decimals.FromNat(-m) + r'
    ensures n == m && r == r'
  {
    assert Decimals.FromNat(-n) + r == Decimals.FromNat(-m) + r' by {
      DropDash(Decimals.FromNat(-n), Decimals.FromNat(-m), r, r');
    }
    NatDetermined(-n, -m, r, r');
  }

  lemma IntDetermined(n: int, m: int, r: string, r': string)
    requires Follows(r) && Follows(r') && PrintInt(n) + r == PrintInt(m) + r'
    ensures n == m && r == r'
  {
    SignDetermined(n, m, r, r');
    if n < 0 {
      NegativeDetermined(n, m, r, r');
    } else {
      NatDetermined(n, m, r, r');
    }
  }

  /** The first character tells the kinds apart. */
  ghost predicate StartsLike(v: Json, c: char) {
    match v
    case Null => c == 'n'
    case Bool(b) => c == if b then 't' else 'f'
    case Number(_) => c == '-' || Ascii.IsDigit(c)
    case Str(_) => c == '"'
    case Arr(_) => c == '['
    case Obj(_) => c == '{'
    case _ => false
  }

  lemma Starts(v: Json)
    requires Canonicalize(v).Success?
    ensures Canonicalize(v).value != "" && StartsLike(v, Canonicalize(v).value[0])
  {
    match v
    case Number(n) => PrintIntHead(n);
    case _ =>
  }

  lemma KindFromText(v: Json, w: Json, r: string, r': string)
    requires Canonicalize(v).Success? && Canonicalize(w).Success?
    requires Canonicalize(v).value + r == Canonicalize(w).value + r'
    ensures (v.Null? <==> w.Null?) && (v.Bool? <==> w.Bool?) && (v.Number? <==> w.Number?)
    ensures (v.Str? <==> w.Str?) && (v.Arr? <==> w.Arr?) && (v.Obj? <==> w.Obj?)
    ensures v.Bool? ==> v == w
  {
    Starts(v);
    Starts(w);
    assert (Canonicalize(v).value + r)[0] == Canonicalize(v).value[0];
    assert (Canonicalize(w).value + r')[0] == Canonicalize(w).value[0];
  }

  lemma CommasHead(parts: seq<string>, close: char, r: string)
    ensures parts != [] ==> Commas(parts) + ([close] + r) == "," + (parts[0] + (Commas(parts[1..]) + ([close] + r)))
    ensures parts == [] ==> Commas(parts) + ([close] + r) == [close] + r
    ensures parts == [] ==> Join(parts) + ([close] + r) == [close] + r
    ensures parts != [] ==> Join(parts) + ([close] + r) == parts[0] + (Commas(parts[1..]) + ([close] + r))
  {
    var rest := [close] + r;
    if parts == [] {
      assert "" + rest == rest;
    } else {
      var tail := Commas(parts[1..]);
      Regroup(parts[0], tail, rest);
      Regroup("," + parts[0], tail, rest);
      Regroup(",", parts[0], tail + rest);
    }
  }

  lemma TextOfArr(v: Json, r: string)
    requires v.Arr? && Canonicalize(v).Success?
    ensures CanonicalizeItems(v, v.items).Success?
    ensures Canonicalize(v).value + r == "[" + (Join(CanonicalizeItems(v, v.items).value) + ("]" + r))
  {
  }

  lemma TextOfObj(v: Json, r: string)
    requires v.Obj? && Canonicalize(v).Success?
    ensures forall i :: 0 <= i < |Sort(KeyAtMost, v.members)| ==> Sort(KeyAtMost, v.members)[i] in v.members
    ensures CanonicalizeMembers(v, Sort(KeyAtMost, v.members)).Success?
    ensures Canonicalize(v).value + r
         == "{" + (Join(CanonicalizeMembers(v, Sort(KeyAtMost, v.members)).value) + ("}" + r))
  {
    SortedMembersInside(v.members);
    var body := Join(CanonicalizeMembers(v, Sort(KeyAtMost, v.members)).value);
    Regroup("{" + body, "}", r);
    Regroup("{", body, "}" + r);
  }

  lemma TextOfStr(s: string, r: string)
    ensures Quote(s) + r == ['"'] + Tail(s, r)
  {
  }

  lemma StrDetermined(s: string, t: string, r: string, r': string)
    requires Quote(s) + r == Quote(t) + r'
    ensures s == t && r == r'
  {
    TextOfStr(s, r);
    TextOfStr(t, r');
    HeadSplit('"', Tail(s, r), '"', Tail(t, r'));
    QuotedSelfDelimiting(s, t, r, r');
  }

  lemma PartFollows(parts: seq<string>, close: char, r: string)
    requires close in [']', '}']
    ensures Follows(Commas(parts) + ([close] + r))
  {
    CommasHead(parts, close, r);
  }

  /** A text that continues with a value starts with none of the closing characters. */
  lemma ValueIsNotClose(v: Json, close: char)
    requires Canonicalize(v).Success? && close in [']', '}', ',']
    ensures Canonicalize(v).value != "" && Canonicalize(v).value[0] != close
  {
    Starts(v);
  }

  lemma {:induction false} ItemsDetermined(v: Json, w: Json, xs: seq<Json>, ys: seq<Json>, r: string, r': string)
    requires v.Arr? && forall i :: 0 <= i < |xs| ==> xs[i] in v.items
    requires w.Arr? && forall i :: 0 <= i < |ys| ==> ys[i] in w.items
    requires CanonicalizeItems(v, xs).Success? && CanonicalizeItems(w, ys).Success?
    requires WellFormed(v) && WellFormed(w)
    requires Commas(CanonicalizeItems(v, xs).value) + ("]" + r) == Commas(CanonicalizeItems(w, ys).value) + ("]" + r')
    ensures DenoteItems(xs) == DenoteItems(ys) && r == r'
    decreases v, 0, |xs|
  {
    var ps, qs := CanonicalizeItems(v, xs).value, CanonicalizeItems(w, ys).value;
    CommasHead(ps, ']', r);
    CommasHead(qs, ']', r');
    if ps == [] || qs == [] {
      assert (Commas(ps) + ("]" + r))[0] == (Commas(qs) + ("]" + r'))[0];
      HeadSplit(']', r, ']', r');
    } else {
      assert xs[0] in v.items && ys[0] in w.items;
      PartFollows(ps[1..], ']', r);
      PartFollows(qs[1..], ']', r');
      HeadSplit(',', ps[0] + (Commas(ps[1..]) + ("]" + r)), ',', qs[0] + (Commas(qs[1..]) + ("]" + r')));
      Determined(xs[0], ys[0], Commas(ps[1..]) + ("]" + r), Commas(qs[1..]) + ("]" + r'));
      ItemsDetermined(v, w, xs[1..], ys[1..], r, r');
    }
  }

  lemma {:induction false} Determined(v: Json, w: Json, r: string, r': string)
    requires WellFormed(v) && WellFormed(w) && Follows(r) && Follows(r')
    requires Canonicalize(v).Success? && Canonicalize(w).Success?
    requires Canonicalize(v).value + r == Canonicalize(w).value + r'
    ensures Denote(v) == Denote(w) && r == r'
    decreases v, 1, 0
  {
    KindFromText(v, w, r, r');
    match v
    case Null => assert r == (Canonicalize(v).value + r)[4..] && r' == (Canonicalize(w).value + r')[4..];
    case Bool(b) =>
      var k := if b then 4 else 5;
      assert r == (Canonicalize(v).value + r)[k..] && r' == (Canonicalize(w).value + r')[k..];
    case Number(n) => IntDetermined(n, w.n, r, r');
    case Str(s) => StrDetermined(s, w.s, r, r');
    case Arr(items) => ArrDetermined(v, w, r, r');
    case Obj(members) => ObjDetermined(v, w, r, r');
  }

  /** Past the opening bracket: whether there is a first part is visible, and then a comma can be
      put before it. */
  lemma JoinToCommas(ps: seq<string>, qs: seq<string>, close: char, r: string, r': string)
    requires Join(ps) + ([close] + r) == Join(qs) + ([close] + r')
    requires ps != [] ==> ps[0] != "" && ps[0][0] != close
    requires qs != [] ==> qs[0] != "" && qs[0][0] != close
    ensures Commas(ps) + ([close] + r) == Commas(qs) + ([close] + r')
  {
    CommasHead(ps, close, r);
    CommasHead(qs, close, r');
    assert (Join(ps) + ([close] + r))[0] == if ps == [] then close else ps[0][0];
    assert (Join(qs) + ([close] + r'))[0] == if qs == [] then close else qs[0][0];
  }

  lemma {:induction false} ArrDetermined(v: Json, w: Json, r: string, r': string)
    requires v.Arr? && w.Arr? && WellFormed(v) && WellFormed(w)
    requires Canonicalize(v).Success? && Canonicalize(w).Success?
    requires Canonicalize(v).value + r == Canonicalize(w).value + r'
    ensures Denote(v) == Denote(w) && r == r'
    decreases v, 0, |v.items| + 1
  {
    TextOfArr(v, r);
    TextOfArr(w, r');
    var ps, qs := CanonicalizeItems(v, v.items).value, CanonicalizeItems(w, w.items).value;
    HeadSplit('[', Join(ps) + ("]" + r), '[', Join(qs) + ("]" + r'));
    if ps != [] {
      ValueIsNotClose(v.items[0], ']');
    }
    if qs != [] {
      ValueIsNotClose(w.items[0], ']');
    }
    JoinToCommas(ps, qs, ']', r, r');
    ItemsDetermined(v, w, v.items, w.items, r, r');
  }

  lemma MemberTextSplit(k: string, x: string, l: string, y: string, r: string, r': string)
    requires Quote(k) + ":" + x + r == Quote(l) + ":" + y + r'
    ensures k == l && x + r == y + r'
  {
    assert Quote(k) + ":" + x + r == Quote(k) + ([':'] + (x + r));
    assert Quote(l) + ":" + y + r' == Quote(l) + ([':'] + (y + r'));
    StrDetermined(k, l, [':'] + (x + r), [':'] + (y + r'));
    HeadSplit(':', x + r, ':', y + r');
  }

  lemma {:induction false} MembersDetermined(v: Json, w: Json, ms: seq<Member>, ns: seq<Member>, r: string, r': string)
    requires v.Obj? && forall i :: 0 <= i < |ms| ==> ms[i] in v.members
    requires w.Obj? && forall i :: 0 <= i < |ns| ==> ns[i] in w.members
    requires CanonicalizeMembers(v, ms).Success? && CanonicalizeMembers(w, ns).Success?
    requires WellFormed(v) && WellFormed(w)
    requires Commas(CanonicalizeMembers(v, ms).value) + ("}" + r) == Commas(CanonicalizeMembers(w, ns).value) + ("}" + r')
    ensures DenoteMembers(ms) == DenoteMembers(ns) && r == r'
    decreases v, 0, |ms|
  {
    var ps, qs := CanonicalizeMembers(v, ms).value, CanonicalizeMembers(w, ns).value;
    CommasHead(ps, '}', r);
    CommasHead(qs, '}', r');
    if ps == [] || qs == [] {
      assert (Commas(ps) + ("}" + r))[0] == (Commas(qs) + ("}" + r'))[0];
      HeadSplit('}', r, '}', r');
    } else {
      var (m, n) := (ms[0], ns[0]);
      assert m in v.members && n in w.members;
      var x, y := Commas(ps[1..]) + ("}" + r), Commas(qs[1..]) + ("}" + r');
      PartFollows(ps[1..], '}', r);
      PartFollows(qs[1..], '}', r');
      HeadSplit(',', ps[0] + x, ',', qs[0] + y);
      MemberTextSplit(m.key, Canonicalize(m.value).value, n.key, Canonicalize(n.value).value, x, y);
      Determined(m.value, n.value, x, y);
      MembersDetermined(v, w, ms[1..], ns[1..], r, r');
    }
  }

  // Sorting the members does not change the map they denote.

  lemma {:induction false} MemberMeaning(members: seq<Member>, m: Member)
    requires forall x, y :: x in members && y in members && x.key == y.key ==> x == y
    requires m in members
    ensures m.key in DenoteMembers(members) && DenoteMembers(members)[m.key] == Denote(m.value)
  {
    if m != members[0] {
      MemberMeaning(members[1..], m);
    }
  }

  lemma {:induction false} KeyHasMember(members: seq<Member>, k: string)
    ensures k in DenoteMembers(members) <==> exists i :: 0 <= i < |members| && members[i].key == k
  {
    if members != [] {
      KeyHasMember(members[1..], k);
      if k in DenoteMembers(members[1..]) {
        var i :| 0 <= i < |members[1..]| && members[1..][i].key == k;
        assert members[i + 1].key == k;
      }
      if exists i :: 0 <= i < |members| && members[i].key == k {
        var i :| 0 <= i < |members| && members[i].key == k;
        if i > 0 {
          assert members[1..][i - 1].key == k;
        }
      }
    }
  }

  lemma DenoteSorted(members: seq<Member>)
    requires UniqueKeys(members)
    ensures DenoteMembers(Sort(KeyAtMost, members)) == DenoteMembers(members)
  {
    var sorted := Sort(KeyAtMost, members);
    SortedMembersInside(members);
    forall k
      ensures k in DenoteMembers(sorted) <==> k in DenoteMembers(members)
      ensures k in DenoteMembers(members) ==> DenoteMembers(sorted)[k] == DenoteMembers(members)[k]
    {
      KeyHasMember(sorted, k);
      KeyHasMember(members, k);
      if k in DenoteMembers(members) {
        var i :| 0 <= i < |members| && members[i].key == k;
        SortedHasAll(members, members[i]);
        MemberMeaning(members, members[i]);
        MemberMeaning(sorted, members[i]);
      }
    }
  }

  lemma MemberTextHead(v: Json, members: seq<Member>)
    requires v.Obj? && members != [] && forall i :: 0 <= i < |members| ==> members[i] in v.members
    requires CanonicalizeMembers(v, members).Success?
    ensures var part := CanonicalizeMembers(v, members).value[0]; part != "" && part[0] == '"'
  {
  }

  lemma {:induction false} ObjDetermined(v: Json, w: Json, r: string, r': string)
    requires v.Obj? && w.Obj? && WellFormed(v) && WellFormed(w)
    requires Canonicalize(v).Success? && Canonicalize(w).Success?
    requires Canonicalize(v).value + r == Canonicalize(w).value + r'
    ensures Denote(v) == Denote(w) && r == r'
    decreases v, 0, |v.members| + 1
  {
    TextOfObj(v, r);
    TextOfObj(w, r');
    var ms, ns := Sort(KeyAtMost, v.members), Sort(KeyAtMost, w.members);
    SortPermutes(KeyAtMost, v.members);
    var ps, qs := CanonicalizeMembers(v, ms).value, CanonicalizeMembers(w, ns).value;
    HeadSplit('{', Join(ps) + ("}" + r), '{', Join(qs) + ("}" + r'));
    if ms != [] {
      MemberTextHead(v, ms);
    }
    if ns != [] {
      MemberTextHead(w, ns);
    }
    JoinToCommas(ps, qs, '}', r, r');
    MembersDetermined(v, w, ms, ns, r, r');
    DenoteSorted(v.members);
    DenoteSorted(w.members);
  }

  // ---------- The meaning determines the text ----------

  /** Members in strictly increasing key order. */
  ghost predicate Increasing(members: seq<Member>) {
    forall i, j :: 0 <= i < j < |members| ==> Less(members[i].key, members[j].key)
  }

  lemma {:induction false} InsertIncreasing(m: Member, members: seq<Member>)
    requires Increasing(members) && forall i :: 0 <= i < |members| ==> members[i].key != m.key
    ensures Increasing(Insert(KeyAtMost, m, members))
  {
    if members != [] {
      if KeyAtMost(m, members[0]) {
        forall j | 0 < j < |members| ensures Less(m.key, members[j].key) {
          LessTransitive(m.key, members[0].key, members[j].key);
        }
      } else {
        LessTotal(m.key, members[0].key);
        InsertIncreasing(m, members[1..]);
        var rest := Insert(KeyAtMost, m, members[1..]);
        InsertPermutes(KeyAtMost, m, members[1..]);
        forall j | 0 <= j < |rest| ensures Less(members[0].key, rest[j].key) {
          assert rest[j] in multiset(rest);
          assert rest[j] == m || rest[j] in members[1..];
        }
      }
    }
  }

  lemma {:induction false} SortIncreasing(members: seq<Member>)
    requires UniqueKeys(members)
    ensures Increasing(Sort(KeyAtMost, members))
  {
    if members != [] {
      SortIncreasing(members[1..]);
      SortedMembersInside(members[1..]);
      InsertIncreasing(members[0], Sort(KeyAtMost, members[1..]));
    }
  }

  lemma SmallestKey(ms: seq<Member>, ns: seq<Member>)
    requires Increasing(ms) && Increasing(ns) && DenoteMembers(ms) == DenoteMembers(ns)
    ensures ms == [] <==> ns == []
    ensures ms != [] ==> ms[0].key == ns[0].key
  {
    if ms != [] {
      KeyHasMember(ms, ms[0].key);
      KeyHasMember(ns, ms[0].key);
    }
    if ns != [] {
      KeyHasMember(ns, ns[0].key);
      KeyHasMember(ms, ns[0].key);
    }
    if ms != [] && ns != [] {
      LessTotal(ms[0].key, ns[0].key);
    }
  }

  lemma HeadMeaning(ms: seq<Member>)
    requires Increasing(ms) && ms != []
    ensures ms[0].key in DenoteMembers(ms) && DenoteMembers(ms)[ms[0].key] == Denote(ms[0].value)
    ensures DenoteMembers(ms[1..]) == DenoteMembers(ms) - {ms[0].key}
  {
    KeyHasMember(ms[1..], ms[0].key);
    forall j | 0 < j < |ms| ensures ms[j].key != ms[0].key {
      LessTotal(ms[0].key, ms[j].key);
    }
  }

  lemma {:induction false} MembersSameText(v: Json, w: Json, ms: seq<Member>, ns: seq<Member>)
    requires v.Obj? && w.Obj? && WellFormed(v) && WellFormed(w) && Permitted(v) && Permitted(w)
    requires forall i :: 0 <= i < |ms| ==> ms[i] in v.members
    requires forall i :: 0 <= i < |ns| ==> ns[i] in w.members
    requires Increasing(ms) && Increasing(ns) && DenoteMembers(ms) == DenoteMembers(ns)
    ensures CanonicalizeMembers(v, ms) == CanonicalizeMembers(w, ns)
    decreases v, 0, |ms|
  {
    SmallestKey(ms, ns);
    if ms != [] {
      assert ms[0] in v.members && ns[0] in w.members;
      HeadMeaning(ms);
      HeadMeaning(ns);
      SameText(ms[0].value, ns[0].value);
      MembersSameText(v, w, ms[1..], ns[1..]);
    }
  }

  lemma {:induction false} ItemsSameText(v: Json, w: Json, xs: seq<Json>, ys: seq<Json>)
    requires v.Arr? && w.Arr? && WellFormed(v) && WellFormed(w) && Permitted(v) && Permitted(w)
    requires forall i :: 0 <= i < |xs| ==> xs[i] in v.items
    requires forall i :: 0 <= i < |ys| ==> ys[i] in w.items
    requires DenoteItems(xs) == DenoteItems(ys)
    ensures CanonicalizeItems(v, xs) == CanonicalizeItems(w, ys)
    decreases v, 0, |xs|
  {
    if xs != [] {
      assert xs[0] in v.items && ys[0] in w.items;
      assert DenoteItems(xs)[1..] == DenoteItems(xs[1..]) && DenoteItems(ys)[1..] == DenoteItems(ys[1..]);
      SameText(xs[0], ys[0]);
      ItemsSameText(v, w, xs[1..], ys[1..]);
    }
  }

  lemma {:induction false} SameText(v: Json, w: Json)
    requires WellFormed(v) && WellFormed(w) && Permitted(v) && Permitted(w)
    requires Denote(v) == Denote(w)
    ensures Canonicalize(v) == Canonicalize(w)
    decreases v, 1, 0
  {
    match v
    case Arr(items) => ItemsSameText(v, w, items, w.items);
    case Obj(members) =>
      SortedMembersInside(members);
      SortedMembersInside(w.members);
      SortIncreasing(members);
      SortIncreasing(w.members);
      DenoteSorted(members);
      DenoteSorted(w.members);
      MembersSameText(v, w, Sort(KeyAtMost, members), Sort(KeyAtMost, w.members));
    case _ =>
  }

  /** Two printable values have one text exactly when they mean the same, that is, when they are
      equal up to the order of object members at every depth. */
  lemma TextIsMeaning(v: Json, w: Json)
    requires WellFormed(v) && WellFormed(w) && Permitted(v) && Permitted(w)
    ensures Canonicalize(v) == Canonicalize(w) <==> Denote(v) == Denote(w)
  {
    SucceedsExactly(v);
    SucceedsExactly(w);
    if Canonicalize(v) == Canonicalize(w) {
      assert Canonicalize(v).value + "" == Canonicalize(w).value + "";
      Determined(v, w, "", "");
    }
    if Denote(v) == Denote(w) {
      SameText(v, w);
    }
  }
}
