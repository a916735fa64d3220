// Registry releases: content-addressed objects, and the walk along their predecessors that decides
// whether a consumer policy admits the release a registry names.
module ReleaseLineage {
  import opened Wrappers

  /** A hash in lower case: the address of some release, or a hash nothing here was addressed by.
      Hashing canonical JSON is an injective constructor, so a release cannot name its own address. */
  datatype Id = Address(release: Release) | OtherId(text: string)

  /** `predecessor` is None when the release names none, or names it by something that is no hash. */
  datatype Release = Release(isRegistryRelease: bool, predecessor: Option<Id>, content: string)

  /** How the raw JSON holds the object: bare, in a response wrapper with an id of its own, or in a broken one. */
  datatype Wrapper = Bare | Wrapped(innerId: Option<Id>) | Broken

  /** `id` is None when the entry's id is no hash; `readable`: the raw JSON parses to an object. */
  datatype Entry = Entry(id: Option<Id>, readable: bool, wrapper: Wrapper, body: Release)

  const MAX_ENTRIES: nat := 64

  // ---------- Addressed objects ----------

  predicate EntryHolds(entry: Entry) {
    && entry.id.Some? && entry.readable && !entry.wrapper.Broken?
    && (entry.wrapper.Wrapped? && entry.wrapper.innerId.Some? ==> entry.wrapper.innerId == entry.id)
    && entry.id.value == Address(entry.body)
  }

  /** Every entry is under its own hash, and no hash is used twice. */
  ghost predicate Addressed(entries: seq<Entry>) {
    && |entries| <= MAX_ENTRIES
    && (forall i :: 0 <= i < |entries| ==> EntryHolds(entries[i]))
    && (forall i, j :: 0 <= i < j < |entries| ==> entries[i].id != entries[j].id)
  }

  /** At most 64 entries, each the object its id is the hash of, a response wrapper naming the same id or none. */
  lemma AddressedOnFields(entries: seq<Entry>)
    ensures Addressed(entries)
       <==> && |entries| <= 64
            && (forall i :: 0 <= i < |entries| ==>
                  entries[i].readable && entries[i].id == Some(Address(entries[i].body)))
            && (forall i :: 0 <= i < |entries| ==>
                  match entries[i].wrapper
                  case Bare => true
                  case Wrapped(innerId) => innerId == None || innerId == Some(Address(entries[i].body))
                  case Broken => false)
            && (forall i, j :: 0 <= i < j < |entries| ==> entries[i].body != entries[j].body)
  {
    forall i | 0 <= i < |entries|
      ensures EntryHolds(entries[i])
         <==> && entries[i].readable && entries[i].id == Some(Address(entries[i].body))
              && match entries[i].wrapper
                 case Bare => true
                 case Wrapped(innerId) => innerId == None || innerId == Some(Address(entries[i].body))
                 case Broken => false
    {
    }
  }

  function IdsOf(entries: seq<Entry>): (ids: seq<Option<Id>>)
    ensures |ids| == |entries|
  {
    seq(|entries|, i requires 0 <= i < |entries| => entries[i].id)
  }

  /** The map holds exactly the supplied bodies, each under its address. */
  ghost predicate Holds(objects: map<Id, Release>, entries: seq<Entry>) {
    && (forall i :: 0 <= i < |entries| ==>
          entries[i].id.Some? && entries[i].id.value in objects && objects[entries[i].id.value] == entries[i].body)
    && (forall id :: id in objects ==> id == Address(objects[id]) && Some(id) in IdsOf(entries))
  }

  lemma HoldsNext(objects: map<Id, Release>, entries: seq<Entry>, i: nat)
    requires i < |entries| && EntryHolds(entries[i]) && Holds(objects, entries[..i])
    requires entries[i].id.value !in objects
    ensures Holds(objects[entries[i].id.value := entries[i].body], entries[..i + 1])
  {
    var longer := objects[entries[i].id.value := entries[i].body];
    var (before, after) := (entries[..i], entries[..i + 1]);
    assert after == before + [entries[i]];
    assert IdsOf(after) == IdsOf(before) + [entries[i].id];
    forall id | id in longer ensures Some(id) in IdsOf(after) {
      assert id in objects || id == entries[i].id.value;
    }
  }

  lemma AlreadyHeld(objects: map<Id, Release>, entries: seq<Entry>, i: nat)
    requires i < |entries| && Holds(objects, entries[..i])
    requires entries[i].id.Some? && entries[i].id.value in objects
    ensures !Addressed(entries)
  {
    var id := entries[i].id.value;
    assert Some(id) in IdsOf(entries[..i]);
    var j :| 0 <= j < i && IdsOf(entries[..i])[j] == Some(id);
    assert entries[j].id == entries[i].id;
  }

  lemma NotYetHeld(objects: map<Id, Release>, entries: seq<Entry>, i: nat)
    requires i < |entries| && Holds(objects, entries[..i])
    requires entries[i].id.Some? && entries[i].id.value !in objects
    ensures forall j :: 0 <= j < i ==> entries[j].id != entries[i].id
  {
    forall j | 0 <= j < i ensures entries[j].id != entries[i].id {
      assert entries[..i][j] == entries[j];
    }
  }

  lemma AddressedNext(objects: map<Id, Release>, entries: seq<Entry>, i: nat)
    requires i < |entries| <= MAX_ENTRIES && Addressed(entries[..i]) && Holds(objects, entries[..i])
    requires EntryHolds(entries[i]) && entries[i].id.value !in objects
    ensures Addressed(entries[..i + 1])
  {
    NotYetHeld(objects, entries, i);
    assert entries[..i + 1] == entries[..i] + [entries[i]];
  }

  /** None where the source throws. */
  method AddressedObjects(entries: seq<Entry>) returns (objects: Option<map<Id, Release>>)
    ensures objects.Some? <==> Addressed(entries)
    ensures objects.Some? ==> Holds(objects.value, entries)
  {
    if |entries| > MAX_ENTRIES {
      return None;
    }
    var filled: map<Id, Release> := map[];
    for i := 0 to |entries|
      invariant Addressed(entries[..i]) && Holds(filled, entries[..i])
    {
      var entry := entries[i];
      if entry.id.None? {
        return None;
      }
      var id := entry.id.value;
      if id in filled {
        AlreadyHeld(filled, entries, i);
        return None;
      }
      if !entry.readable || entry.wrapper.Broken? {
        return None;
      }
      if entry.wrapper.Wrapped? && entry.wrapper.innerId.Some? && entry.wrapper.innerId.value != id {
        return None;
      }
      if Address(entry.body) != id {
        return None;
      }
      AddressedNext(filled, entries, i);
      HoldsNext(filled, entries, i);
      filled := filled[id := entry.body];
    }
    assert entries[..|entries|] == entries;
    objects := Some(filled);
  }

  // ---------- The lineage walk ----------

  datatype Verdict =
    | LegacySnapshot | ReleaseRequired | FloorRequired | InvalidEvidence
    | Admitted(floor: Id) | LineageCycle | UnknownRelease | NotAdmitted

  /** A supplied release of the right kind. */
  predicate Supplied(releases: map<Id, Release>, id: Id) {
    id in releases && releases[id].isRegistryRelease
  }

  /** The n-th release along the predecessors, as long as each one passed is supplied and names the next. */
  ghost function Nth(releases: map<Id, Release>, start: Id, n: nat): Option<Id> {
    if n == 0 then Some(start)
    else
      match Nth(releases, start, n - 1)
      case None => None
      case Some(id) => if Supplied(releases, id) then releases[id].predecessor else None
  }

  /** The lineage starts at the named release and goes from a supplied registry release to its predecessor. */
  lemma NextRelease(releases: map<Id, Release>, start: Id, n: nat, id: Id)
    ensures Nth(releases, start, 0) == Some(start)
    ensures Nth(releases, start, n + 1) == Some(id)
       <==> exists before :: && Nth(releases, start, n) == Some(before) && before in releases
                             && releases[before].isRegistryRelease && releases[before].predecessor == Some(id)
  {
  }

  /** The n-th release along the lineage is a policy floor, and is itself supplied. */
  ghost predicate FloorAt(releases: map<Id, Release>, floors: seq<Id>, start: Id, n: nat) {
    var id := Nth(releases, start, n);
    id.Some? && Supplied(releases, id.value) && id.value in floors
  }

  ghost predicate NoFloorBefore(releases: map<Id, Release>, floors: seq<Id>, start: Id, n: nat) {
    forall k: nat :: k < n ==> !FloorAt(releases, floors, start, k)
  }

  /** Following predecessors reaches a floor; the first one is `floor`. */
  ghost predicate Reaches(releases: map<Id, Release>, floors: seq<Id>, start: Id, floor: Id) {
    exists n: nat ::
      FloorAt(releases, floors, start, n) && NoFloorBefore(releases, floors, start, n)
      && Nth(releases, start, n) == Some(floor)
  }

  /** The lineage leaves the supplied releases before any floor. */
  ghost predicate LeavesSupplied(releases: map<Id, Release>, floors: seq<Id>, start: Id) {
    exists n: nat ::
      NoFloorBefore(releases, floors, start, n)
      && Nth(releases, start, n).Some? && !Supplied(releases, Nth(releases, start, n).value)
  }

  ghost predicate EndsAt(releases: map<Id, Release>, floors: seq<Id>, start: Id, n: nat) {
    var id := Nth(releases, start, n);
    id.Some? && Supplied(releases, id.value) && id.value !in floors && releases[id.value].predecessor.None?
  }

  /** The lineage ends at a supplied release without predecessor, before any floor. */
  ghost predicate EndsOutside(releases: map<Id, Release>, floors: seq<Id>, start: Id) {
    exists n: nat :: NoFloorBefore(releases, floors, start, n) && EndsAt(releases, floors, start, n)
  }

  /** The lineage never ends, and no release on it is a floor. */
  ghost predicate RunsForever(releases: map<Id, Release>, floors: seq<Id>, start: Id) {
    forall n: nat :: Nth(releases, start, n).Some? && !FloorAt(releases, floors, start, n)
  }

  ghost predicate Describes(verdict: Verdict, releases: map<Id, Release>, floors: seq<Id>, start: Id) {
    match verdict
    case Admitted(floor) => Reaches(releases, floors, start, floor)
    case UnknownRelease => LeavesSupplied(releases, floors, start)
    case NotAdmitted => EndsOutside(releases, floors, start)
    case LineageCycle => RunsForever(releases, floors, start)
    case _ => false
  }

  /** What the walk answers on reaching `id`; None when it goes on. */
  function AnswerAt(releases: map<Id, Release>, floors: seq<Id>, id: Id): Option<Verdict> {
    if !Supplied(releases, id) then Some(UnknownRelease)
    else if id in floors then Some(Admitted(id))
    else if releases[id].predecessor.None? then Some(NotAdmitted)
    else None
  }

  ghost predicate PassedBy(releases: map<Id, Release>, floors: seq<Id>, start: Id, k: nat) {
    Nth(releases, start, k).Some? && AnswerAt(releases, floors, Nth(releases, start, k).value).None?
  }

  ghost predicate AllPassed(releases: map<Id, Release>, floors: seq<Id>, start: Id, n: nat) {
    forall k: nat :: k < n ==> PassedBy(releases, floors, start, k)
  }

  /** The walk gets to the n-th release and answers there. */
  ghost predicate StopsFirst(verdict: Verdict, releases: map<Id, Release>, floors: seq<Id>, start: Id, n: nat) {
    && AllPassed(releases, floors, start, n)
    && Nth(releases, start, n).Some?
    && AnswerAt(releases, floors, Nth(releases, start, n).value) == Some(verdict)
  }

  lemma {:induction false} LaterMeansPassed(releases: map<Id, Release>, floors: seq<Id>, start: Id, n: nat)
    requires Nth(releases, start, n).Some? && NoFloorBefore(releases, floors, start, n)
    ensures AllPassed(releases, floors, start, n)
  {
    if n > 0 {
      assert !FloorAt(releases, floors, start, n - 1);
      LaterMeansPassed(releases, floors, start, n - 1);
    }
  }

  lemma FirstStop(verdict: Verdict, releases: map<Id, Release>, floors: seq<Id>, start: Id) returns (n: nat)
    requires Describes(verdict, releases, floors, start) && !verdict.LineageCycle?
    ensures StopsFirst(verdict, releases, floors, start, n)
  {
    match verdict {
      case Admitted(floor) =>
        n :| FloorAt(releases, floors, start, n) && NoFloorBefore(releases, floors, start, n)
             && Nth(releases, start, n) == Some(floor);
      case UnknownRelease =>
        n :| NoFloorBefore(releases, floors, start, n)
             && Nth(releases, start, n).Some? && !Supplied(releases, Nth(releases, start, n).value);
      case NotAdmitted =>
        n :| NoFloorBefore(releases, floors, start, n) && EndsAt(releases, floors, start, n);
    }
    LaterMeansPassed(releases, floors, start, n);
  }

  lemma ForeverNeverStops(releases: map<Id, Release>, floors: seq<Id>, start: Id, n: nat)
    requires RunsForever(releases, floors, start)
    ensures PassedBy(releases, floors, start, n)
  {
    assert Nth(releases, start, n).Some? && !FloorAt(releases, floors, start, n);
    assert Nth(releases, start, n + 1).Some?;
  }

  /** At most one verdict describes a lineage, so a walk that returns one that does decides all of them. */
  lemma VerdictUnique(a: Verdict, b: Verdict, releases: map<Id, Release>, floors: seq<Id>, start: Id)
    requires Describes(a, releases, floors, start) && Describes(b, releases, floors, start)
    ensures a == b
  {
    if !a.LineageCycle? {
      var n := FirstStop(a, releases, floors, start);
      if b.LineageCycle? {
        ForeverNeverStops(releases, floors, start, n);
      } else {
        var m := FirstStop(b, releases, floors, start);
        assert n < m ==> PassedBy(releases, floors, start, n);
        assert m < n ==> PassedBy(releases, floors, start, m);
      }
    } else if !b.LineageCycle? {
      var m := FirstStop(b, releases, floors, start);
      ForeverNeverStops(releases, floors, start, m);
    }
  }

  lemma StopDescribes(verdict: Verdict, releases: map<Id, Release>, floors: seq<Id>, start: Id, n: nat)
    requires StopsFirst(verdict, releases, floors, start, n)
    ensures Describes(verdict, releases, floors, start)
  {
    forall k: nat | k < n ensures !FloorAt(releases, floors, start, k) {
      assert PassedBy(releases, floors, start, k);
    }
    assert NoFloorBefore(releases, floors, start, n);
    if verdict.Admitted? {
      assert FloorAt(releases, floors, start, n);
    } else if verdict.NotAdmitted? {
      assert EndsAt(releases, floors, start, n);
    }
  }

  /** Coming back to a release already passed, the lineage goes round among the releases before. */
  lemma {:induction false} GoesRound(releases: map<Id, Release>, floors: seq<Id>, start: Id, first: nat, n: nat, m: nat)
    returns (k: nat)
    requires first < n && Nth(releases, start, first) == Nth(releases, start, n)
    requires AllPassed(releases, floors, start, n)
    ensures k < n && Nth(releases, start, m) == Nth(releases, start, k)
    decreases m
  {
    if m < n {
      k := m;
    } else if m == n {
      k := first;
    } else {
      var j := GoesRound(releases, floors, start, first, n, m - 1);
      assert Nth(releases, start, m) == Nth(releases, start, j + 1);
      k := if j + 1 == n then first else j + 1;
    }
  }

  lemma CycleRunsForever(releases: map<Id, Release>, floors: seq<Id>, start: Id, first: nat, n: nat)
    requires first < n && Nth(releases, start, first) == Nth(releases, start, n)
    requires AllPassed(releases, floors, start, n)
    ensures RunsForever(releases, floors, start)
  {
    forall m: nat ensures Nth(releases, start, m).Some? && !FloorAt(releases, floors, start, m) {
      var k := GoesRound(releases, floors, start, first, n, m);
      assert PassedBy(releases, floors, start, k);
    }
  }

  ghost predicate IsNth(releases: map<Id, Release>, start: Id, k: nat, id: Id) {
    Nth(releases, start, k) == Some(id)
  }

  /** The releases the walk has passed. */
  ghost predicate Seen(seen: set<Id>, releases: map<Id, Release>, start: Id, n: nat) {
    forall id :: id in seen <==> exists k: nat :: k < n && IsNth(releases, start, k, id)
  }

  lemma SeenNext(seen: set<Id>, releases: map<Id, Release>, start: Id, n: nat, cursor: Id)
    requires Seen(seen, releases, start, n) && IsNth(releases, start, n, cursor)
    ensures Seen(seen + {cursor}, releases, start, n + 1)
  {
    forall id ensures id in seen + {cursor} <==> exists k: nat :: k < n + 1 && IsNth(releases, start, k, id) {
      if id in seen {
        var k: nat :| k < n && IsNth(releases, start, k, id);
        assert k < n + 1;
      }
    }
  }

  lemma PassedNext(releases: map<Id, Release>, floors: seq<Id>, start: Id, n: nat, cursor: Id)
    requires AllPassed(releases, floors, start, n) && IsNth(releases, start, n, cursor)
    requires AnswerAt(releases, floors, cursor).None?
    ensures AllPassed(releases, floors, start, n + 1)
    ensures IsNth(releases, start, n + 1, releases[cursor].predecessor.value)
  {
  }

  method WalkLineage(releases: map<Id, Release>, floors: seq<Id>, start: Id) returns (verdict: Verdict)
    ensures Describes(verdict, releases, floors, start)
  {
    var cursor := start;
    var seen: set<Id> := {};
    ghost var n: nat := 0;
    while true
      invariant IsNth(releases, start, n, cursor)
      invariant Seen(seen, releases, start, n) && seen <= releases.Keys
      invariant AllPassed(releases, floors, start, n)
      decreases |releases.Keys - seen|
    {
      if cursor in seen {
        ghost var first: nat :| first < n && IsNth(releases, start, first, cursor);
        CycleRunsForever(releases, floors, start, first, n);
        return LineageCycle;
      }
      SeenNext(seen, releases, start, n, cursor);
      ghost var before := releases.Keys - seen;
      seen := seen + {cursor};
      if cursor !in releases || !releases[cursor].isRegistryRelease {
        StopDescribes(UnknownRelease, releases, floors, start, n);
        return UnknownRelease;
      }
      assert releases.Keys - seen == before - {cursor} && cursor in before;
      if cursor in floors {
        StopDescribes(Admitted(cursor), releases, floors, start, n);
        return Admitted(cursor);
      }
      if releases[cursor].predecessor.None? {
        StopDescribes(NotAdmitted, releases, floors, start, n);
        return NotAdmitted;
      }
      PassedNext(releases, floors, start, n, cursor);
      cursor := releases[cursor].predecessor.value;
      n := n + 1;
    }
  }

  // ---------- Content addressing leaves no cycle ----------

  ghost function Height(id: Id): nat
    decreases id
  {
    match id
    case OtherId(_) => 0
    case Address(release) => match release.predecessor case None => 1 case Some(p) => 1 + Height(p)
  }

  ghost predicate ContentAddressed(releases: map<Id, Release>) {
    forall id :: id in releases ==> id == Address(releases[id])
  }

  lemma {:induction false} LineageDescends(releases: map<Id, Release>, start: Id, n: nat)
    requires ContentAddressed(releases) && Nth(releases, start, n).Some?
    ensures Height(Nth(releases, start, n).value) + n <= Height(start)
  {
    if n > 0 {
      LineageDescends(releases, start, n - 1);
    }
  }

  /** Every lineage of content-addressed releases ends, within the height of its start. */
  lemma NoCycle(releases: map<Id, Release>, floors: seq<Id>, start: Id)
    requires ContentAddressed(releases)
    ensures !RunsForever(releases, floors, start)
    ensures Nth(releases, start, Height(start) + 1).None?
  {
    if Nth(releases, start, Height(start) + 1).Some? {
      LineageDescends(releases, start, Height(start) + 1);
    }
  }

  lemma {:induction false} SelfNamed(id: Id, release: Release, n: nat)
    requires release.isRegistryRelease && release.predecessor == Some(id)
    ensures Nth(map[id := release], id, n) == Some(id)
  {
    if n > 0 {
      SelfNamed(id, release, n - 1);
    }
  }

  /** On a map that is not content-addressed the walk can go round: a release that names itself. */
  lemma SelfNamedRunsForever(id: Id, release: Release, n: nat)
    requires release.isRegistryRelease && release.predecessor == Some(id)
    ensures Nth(map[id := release], id, n) == Some(id)
    ensures RunsForever(map[id := release], [], id)
  {
    forall m: nat ensures Nth(map[id := release], id, m) == Some(id) {
      SelfNamed(id, release, m);
    }
  }

  // ---------- The release section of the evaluation ----------

  /** The registry's release id: missing, text that is no hash, or a hash. */
  datatype ReleaseId = Missing | Malformed | Hash(id: Id)

  /** The verdict on a registry's release: the refusals, each exactly under its condition, or else what the walk says
      about the supplied objects. */
  ghost predicate Decides(verdict: Verdict, version: int, releaseId: ReleaseId, floors: seq<Id>, entries: seq<Entry>) {
    && (verdict.LegacySnapshot? <==> version < 5 && releaseId.Missing? && floors == [])
    && (verdict.ReleaseRequired? <==> !releaseId.Hash? && !(version < 5 && releaseId.Missing? && floors == []))
    && (verdict.FloorRequired? <==> releaseId.Hash? && floors == [])
    && (verdict.InvalidEvidence? <==> releaseId.Hash? && floors != [] && !Addressed(entries))
    && (releaseId.Hash? && floors != [] && Addressed(entries) ==>
          exists releases :: Holds(releases, entries) && Describes(verdict, releases, floors, releaseId.id))
  }

  /** Which supplied release a policy admits; the walk only sees content-addressed objects. */
  method EvaluateRelease(version: int, releaseId: ReleaseId, floors: seq<Id>, entries: seq<Entry>)
    returns (verdict: Verdict)
    ensures Decides(verdict, version, releaseId, floors, entries)
    ensures !verdict.LineageCycle?
    ensures verdict == LegacySnapshot <==> version < 5 && releaseId == Missing && floors == []
    ensures verdict == ReleaseRequired <==> !releaseId.Hash? && (version >= 5 || releaseId == Malformed || floors != [])
    ensures verdict == FloorRequired <==> releaseId.Hash? && floors == []
    ensures verdict == InvalidEvidence <==> releaseId.Hash? && floors != [] && !Addressed(entries)
  {
    if version < 5 && releaseId.Missing? && |floors| == 0 {
      return LegacySnapshot;
    }
    if !releaseId.Hash? {
      return ReleaseRequired;
    }
    if |floors| == 0 {
      return FloorRequired;
    }
    var objects := AddressedObjects(entries);
    if objects.None? {
      return InvalidEvidence;
    }
    NoCycle(objects.value, floors, releaseId.id);
    verdict := WalkLineage(objects.value, floors, releaseId.id);
  }

  lemma {:induction false} TwiceIn<T>(s: seq<T>, x: T)
    requires multiset(s)[x] >= 2
    ensures exists i, j :: 0 <= i < j < |s| && s[i] == x && s[j] == x
  {
    var (front, last) := (s[..|s| - 1], s[|s| - 1]);
    assert s == front + [last];
    if last == x {
      assert x in multiset(front);
      var i :| 0 <= i < |front| && front[i] == x;
      assert s[i] == x && s[|s| - 1] == x;
    } else {
      TwiceIn(front, x);
      var i, j :| 0 <= i < j < |front| && front[i] == x && front[j] == x;
      assert s[i] == x && s[j] == x;
    }
  }

  lemma CountedTwice<T>(s: seq<T>, i: nat, j: nat)
    requires i < j < |s| && s[i] == s[j]
    ensures multiset(s)[s[i]] >= 2
  {
    var (before, after) := (s[..j], s[j..]);
    assert s == before + after;
    assert before[i] == s[i] && after[0] == s[i];
    assert s[i] in multiset(before) && s[i] in multiset(after);
  }

  /** In another order, the same objects are addressed. */
  lemma AddressedAlike(a: seq<Entry>, b: seq<Entry>)
    requires multiset(a) == multiset(b) && Addressed(a)
    ensures Addressed(b)
  {
    assert |a| == |multiset(a)| == |multiset(b)| == |b|;
    forall i | 0 <= i < |b| ensures EntryHolds(b[i]) {
      assert b[i] in multiset(a);
    }
    forall i, j | 0 <= i < j < |b| ensures b[i].id != b[j].id {
      assert b[i] in multiset(a) && b[j] in multiset(a);
      if b[i] == b[j] {
        CountedTwice(b, i, j);
        TwiceIn(a, b[i]);
      } else {
        var k :| 0 <= k < |a| && a[k] == b[i];
        var l :| 0 <= l < |a| && a[l] == b[j];
      }
    }
  }

  lemma Contained(x: map<Id, Release>, y: map<Id, Release>, a: seq<Entry>, b: seq<Entry>)
    requires multiset(a) == multiset(b) && Holds(x, a) && Holds(y, b)
    ensures forall id :: id in x ==> id in y && y[id] == x[id]
  {
    forall id | id in x ensures id in y && y[id] == x[id] {
      var i :| 0 <= i < |a| && IdsOf(a)[i] == Some(id);
      assert a[i].id == Some(id) && x[id] == a[i].body;
      assert a[i] in multiset(b);
      var j :| 0 <= j < |b| && b[j] == a[i];
    }
  }

  /** The map is determined by the objects, in whatever order they are supplied. */
  lemma MapDetermined(x: map<Id, Release>, y: map<Id, Release>, a: seq<Entry>, b: seq<Entry>)
    requires multiset(a) == multiset(b) && Holds(x, a) && Holds(y, b)
    ensures x == y
  {
    Contained(x, y, a, b);
    Contained(y, x, b, a);
    assert forall id :: id in x <==> id in y;
  }

  /** The verdict is determined, and does not depend on the order in which the objects are supplied. */
  lemma OneVerdict(v: Verdict, w: Verdict, version: int, releaseId: ReleaseId, floors: seq<Id>,
                   a: seq<Entry>, b: seq<Entry>)
    requires multiset(a) == multiset(b)
    requires Decides(v, version, releaseId, floors, a) && Decides(w, version, releaseId, floors, b)
    ensures v == w
  {
    if Addressed(a) {
      AddressedAlike(a, b);
    } else if Addressed(b) {
      AddressedAlike(b, a);
    }
    if releaseId.Hash? && floors != [] && Addressed(a) {
      var x :| Holds(x, a) && Describes(v, x, floors, releaseId.id);
      var y :| Holds(y, b) && Describes(w, y, floors, releaseId.id);
      MapDetermined(x, y, a, b);
      VerdictUnique(v, w, x, floors, releaseId.id);
    }
  }

  lemma FirstFloor(releases: map<Id, Release>, floors: seq<Id>, start: Id, n: nat) returns (first: nat)
    requires FloorAt(releases, floors, start, n)
    ensures first <= n && FloorAt(releases, floors, start, first) && NoFloorBefore(releases, floors, start, first)
  {
    first := 0;
    while !FloorAt(releases, floors, start, first)
      invariant first <= n && NoFloorBefore(releases, floors, start, first)
      decreases n - first
    {
      first := first + 1;
    }
  }

  /** A release is admitted exactly when following predecessors through supplied releases of the right kind
      reaches a policy floor that is itself supplied; the floor reported is the first. */
  lemma AdmittedExactly(verdict: Verdict, releases: map<Id, Release>, floors: seq<Id>, start: Id, floor: Id)
    requires Describes(verdict, releases, floors, start)
    ensures verdict == Admitted(floor) <==> Reaches(releases, floors, start, floor)
    ensures verdict.Admitted? <==> exists n: nat :: FloorAt(releases, floors, start, n)
  {
    if Reaches(releases, floors, start, floor) {
      VerdictUnique(verdict, Admitted(floor), releases, floors, start);
    }
    if n: nat :| FloorAt(releases, floors, start, n) {
      var first := FirstFloor(releases, floors, start, n);
      var reached := Nth(releases, start, first).value;
      assert Reaches(releases, floors, start, reached);
      VerdictUnique(verdict, Admitted(reached), releases, floors, start);
    }
  }
}
