// What the canonical printer writes, kind by kind: the texts of scalars, the commas between the parts, and the
// members of an object in ascending order of the UTF-16 code units of their keys.
module CanonicalText {
  import opened CanonicalJson
  import opened JsStrings
  import opened Sorting
  import opened Wrappers
  import Decimals

  /** The values a JavaScript program can hand over: no object has a key twice, at any depth. */
  lemma WellFormedExactly(v: Json)
    ensures WellFormed(v)
       <==> match v
            case Arr(items) => forall i :: 0 <= i < |items| ==> WellFormed(items[i])
            case Obj(members) =>
              && (forall i, j :: 0 <= i < j < |members| ==> members[i].key != members[j].key)
              && (forall i :: 0 <= i < |members| ==> WellFormed(members[i].value))
            case Undefined => true
            case Null => true
            case Bool(_) => true
            case Number(_) => true
            case NonFinite => true
            case Str(_) => true
  {
  }

  /** Integers are canonical decimals, with a dash before a negative one. */
  lemma NumbersPrinted(n: int)
    ensures Canonicalize(Number(n)) == Success(PrintInt(n))
    ensures n >= 0 ==> Decimals.IsCanonical(PrintInt(n)) && Decimals.ToNat(PrintInt(n)) == n
    ensures n < 0 ==> PrintInt(n) == "-" + PrintInt(-n)
  {
    if n >= 0 {
      Decimals.FromNatCanonical(n);
    }
  }

  /** Text is quoted, and escaped character by character. */
  lemma TextsPrinted(s: string)
    ensures EscapeAll("") == "" && (s != "" ==> EscapeAll(s) == Escape(s[0]) + EscapeAll(s[1..]))
    ensures Quote(s) == "\"" + EscapeAll(s) + "\"" && Canonicalize(Str(s)) == Success(Quote(s))
  {
    var (quote, body) := ("\"", EscapeAll(s));
    assert quote + "" == quote;
    assert quote + (body + quote) == quote + body + quote;
  }

  /** The other scalars, and the values that are refused. */
  lemma OthersPrinted()
    ensures Canonicalize(Null) == Success("null")
    ensures Canonicalize(Bool(true)) == Success("true") && Canonicalize(Bool(false)) == Success("false")
    ensures Canonicalize(Undefined) == Failure(UndefinedValue) && Canonicalize(NonFinite) == Failure(NonFiniteNumber)
  {
  }

  /** The parts are separated by one comma each. */
  lemma PartsJoined(part: string, rest: seq<string>)
    ensures Join([]) == "" && Join([part]) == part
    ensures rest != [] ==> Join([part] + rest) == part + "," + Join(rest)
  {
    assert ([part] + rest)[1..] == rest && [part][1..] == [];
    assert part + "" == part;
    if rest != [] {
      assert part + ("," + rest[0] + Commas(rest[1..])) == part + "," + (rest[0] + Commas(rest[1..]));
    }
  }

  /** A key is refused exactly when it is one of the three that could reach a prototype. */
  lemma KeyRefusedExactly(key: string, value: Json)
    requires Permitted(value)
    ensures Canonicalize(Obj([Member(key, value)])).Failure?
       <==> key == "__proto__" || key == "prototype" || key == "constructor"
  {
    var v := Obj([Member(key, value)]);
    SucceedsExactly(v);
    assert Permitted(v) <==> !Forbidden(v.members[0].key) && Permitted(v.members[0].value);
  }

  lemma {:induction false} ItemTexts(v: Json, items: seq<Json>)
    requires v.Arr? && forall i :: 0 <= i < |items| ==> items[i] in v.items
    requires CanonicalizeItems(v, items).Success?
    ensures forall i :: 0 <= i < |items| ==> Canonicalize(items[i]) == Success(CanonicalizeItems(v, items).value[i])
  {
    if items != [] {
      ItemTexts(v, items[1..]);
      var parts := CanonicalizeItems(v, items).value;
      forall i | 0 <= i < |items| ensures Canonicalize(items[i]) == Success(parts[i]) {
        assert i > 0 ==> items[i] == items[1..][i - 1] && parts[i] == parts[1..][i - 1];
      }
    }
  }

  /** An array is the texts of its items, in their order. */
  lemma ArrayPrinted(items: seq<Json>) returns (parts: seq<string>)
    requires Permitted(Arr(items))
    ensures |parts| == |items| && forall i :: 0 <= i < |items| ==> Canonicalize(items[i]) == Success(parts[i])
    ensures Canonicalize(Arr(items)) == Success("[" + Join(parts) + "]")
  {
    var v := Arr(items);
    SucceedsExactly(v);
    ItemTexts(v, items);
    parts := CanonicalizeItems(v, items).value;
  }

  /** The text of a member: its quoted key, a colon, and its value. */
  ghost predicate PrintedMember(part: string, m: Member) {
    Canonicalize(m.value).Success? && part == "\"" + EscapeAll(m.key) + "\"" + ":" + Canonicalize(m.value).value
  }

  lemma {:induction false} MemberTexts(v: Json, members: seq<Member>)
    requires v.Obj? && forall i :: 0 <= i < |members| ==> members[i] in v.members
    requires CanonicalizeMembers(v, members).Success?
    ensures forall i :: 0 <= i < |members| ==> PrintedMember(CanonicalizeMembers(v, members).value[i], members[i])
  {
    if members != [] {
      MemberTexts(v, members[1..]);
      TextsPrinted(members[0].key);
      var parts := CanonicalizeMembers(v, members).value;
      forall i | 0 <= i < |members| ensures PrintedMember(parts[i], members[i]) {
        assert i > 0 ==> members[i] == members[1..][i - 1] && parts[i] == parts[1..][i - 1];
      }
    }
  }

  /** An object is the texts of all its members, their keys strictly ascending by UTF-16 code units. */
  lemma ObjectPrinted(members: seq<Member>) returns (sorted: seq<Member>, parts: seq<string>)
    requires WellFormed(Obj(members)) && Permitted(Obj(members))
    ensures multiset(sorted) == multiset(members) && |parts| == |sorted|
    ensures forall i, j :: 0 <= i < j < |sorted| ==> UnitsBefore(CodeUnits(sorted[i].key), CodeUnits(sorted[j].key))
    ensures forall i :: 0 <= i < |sorted| ==> PrintedMember(parts[i], sorted[i])
    ensures Canonicalize(Obj(members)) == Success("{" + Join(parts) + "}")
  {
    var v := Obj(members);
    sorted := Sort(KeyAtMost, members);
    SucceedsExactly(v);
    SortedMembersInside(members);
    SortPermutes(KeyAtMost, members);
    SortIncreasing(members);
    forall i, j | 0 <= i < j < |sorted| ensures UnitsBefore(CodeUnits(sorted[i].key), CodeUnits(sorted[j].key)) {
      LessIsUnits(sorted[i].key, sorted[j].key);
    }
    MemberTexts(v, sorted);
    parts := CanonicalizeMembers(v, sorted).value;
  }
}
