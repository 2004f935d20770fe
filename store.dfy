/** The scheduling table as the handlers use it: items keyed by (PK, SK),
    `update_item` with a `SET` expression, and the ordering by `start` that
    the start index and Python's `sorted` both give. */
module Store {
  import opened Json
  import opened Text

  datatype Key = Key(pk: string, sk: string)

  /** An item: attribute name to value. */
  type Item = map<string, Value>

  type Table = map<Key, Item>

  /** An item carries its own key attributes. */
  predicate KeyedAs(item: Item, k: Key) {
    "PK" in item && item["PK"] == Str(k.pk) && "SK" in item && item["SK"] == Str(k.sk)
  }

  predicate WellKeyed(t: Table) {
    forall k :: k in t ==> KeyedAs(t[k], k)
  }

  /** Items under different keys are different items. */
  lemma DistinctKeysDistinctItems(t: Table, k1: Key, k2: Key)
    requires WellKeyed(t) && k1 in t && k2 in t && k1 != k2
    ensures t[k1] != t[k2]
  {
  }

  // ---------------------------------------------------------------------------
  // update_item

  /** One `name = :placeholder` clause of a `SET` expression. A name that starts
      with `#` stands for the attribute the request's name map gives it. */
  datatype Assignment = Assignment(name: string, placeholder: string)

  /** An `update_item` call: the key, the expression text with the clauses it
      spells, and the `ExpressionAttributeValues` and `ExpressionAttributeNames`. */
  datatype UpdateRequest = UpdateRequest(
    key: Key, expression: string, assignments: seq<Assignment>,
    values: map<string, Value>, names: map<string, string>)

  predicate IsNameRef(name: string) {
    |name| > 0 && name[0] == '#'
  }

  /** The attribute a clause writes (a `#name` resolved through the name map). */
  function Target(a: Assignment, names: map<string, string>): string {
    if IsNameRef(a.name) && a.name in names then names[a.name] else a.name
  }

  /** What applying an update needs: some clause, a value for every
      placeholder, and no clause writing a key attribute. */
  predicate Applicable(u: UpdateRequest) {
    && |u.assignments| > 0
    && (forall i :: 0 <= i < |u.assignments| ==> u.assignments[i].placeholder in u.values)
    && "PK" !in Targets(u.assignments, u.names) && "SK" !in Targets(u.assignments, u.names)
  }

  /** What the store further checks: every `#name` used has an entry, and every
      value and name entry is used. */
  predicate EntriesUsed(u: UpdateRequest) {
    && (forall i :: 0 <= i < |u.assignments| && IsNameRef(u.assignments[i].name) ==> u.assignments[i].name in u.names)
    && (forall p :: p in u.values ==> exists i :: 0 <= i < |u.assignments| && u.assignments[i].placeholder == p)
    && (forall n :: n in u.names ==> exists i :: 0 <= i < |u.assignments| && u.assignments[i].name == n)
  }

  /** An update the store accepts. */
  predicate AcceptedUpdate(u: UpdateRequest) {
    Applicable(u) && EntriesUsed(u)
  }

  /** The attributes the clauses write. */
  function Targets(assignments: seq<Assignment>, names: map<string, string>): (r: set<string>)
    ensures forall i :: 0 <= i < |assignments| ==> Target(assignments[i], names) in r
  {
    if |assignments| == 0 then {}
    else
      assert forall i :: 1 <= i < |assignments| ==> assignments[i] == assignments[1..][i - 1];
      {Target(assignments[0], names)} + Targets(assignments[1..], names)
  }

  /** The clauses applied left to right. */
  function Apply(item: Item, assignments: seq<Assignment>, values: map<string, Value>, names: map<string, string>): (r: Item)
    requires forall i :: 0 <= i < |assignments| ==> assignments[i].placeholder in values
    ensures r.Keys == item.Keys + Targets(assignments, names)
    ensures forall a :: a in item && a !in Targets(assignments, names) ==> r[a] == item[a]
    decreases |assignments|
  {
    if |assignments| == 0 then item
    else
      var a := assignments[0];
      assert forall i :: 1 <= i < |assignments| ==> assignments[i] == assignments[1..][i - 1];
      Apply(item[Target(a, names) := values[a.placeholder]], assignments[1..], values, names)
  }

  /** The clauses write nothing but their own targets. */
  lemma {:induction false} TargetsAreClauseTargets(assignments: seq<Assignment>, names: map<string, string>)
    ensures forall x :: x in Targets(assignments, names) ==>
      exists i :: 0 <= i < |assignments| && Target(assignments[i], names) == x
    decreases |assignments|
  {
    if |assignments| > 0 {
      var rest := assignments[1..];
      TargetsAreClauseTargets(rest, names);
      assert Targets(assignments, names) == {Target(assignments[0], names)} + Targets(rest, names);
      forall x | x in Targets(assignments, names)
        ensures exists i :: 0 <= i < |assignments| && Target(assignments[i], names) == x
      {
        if x != Target(assignments[0], names) {
          var j :| 0 <= j < |rest| && Target(rest[j], names) == x;
          assert assignments[j + 1] == rest[j];
        }
      }
    }
  }

  /** The value an attribute ends with is the one its last clause writes. */
  lemma {:induction false} ApplyWritesLastValue(item: Item, assignments: seq<Assignment>, values: map<string, Value>,
                                                names: map<string, string>, i: int)
    requires forall k :: 0 <= k < |assignments| ==> assignments[k].placeholder in values
    requires 0 <= i < |assignments|
    requires forall j :: i < j < |assignments| ==> Target(assignments[j], names) != Target(assignments[i], names)
    ensures Apply(item, assignments, values, names)[Target(assignments[i], names)] == values[assignments[i].placeholder]
    decreases |assignments|
  {
    var a := assignments[0];
    var rest := assignments[1..];
    var next := item[Target(a, names) := values[a.placeholder]];
    assert Apply(item, assignments, values, names) == Apply(next, rest, values, names);
    if i == 0 {
      TargetsAreClauseTargets(rest, names);
      forall j | 0 <= j < |rest| ensures Target(rest[j], names) != Target(a, names) {
        assert rest[j] == assignments[j + 1];
      }
      assert Target(a, names) !in Targets(rest, names);
    } else {
      assert assignments[i] == rest[i - 1];
      forall j | i - 1 < j < |rest| ensures Target(rest[j], names) != Target(rest[i - 1], names) {
        assert rest[j] == assignments[j + 1];
      }
      ApplyWritesLastValue(next, rest, values, names, i - 1);
    }
  }

  /** The item an update starts from: the stored one, or (the update being
      unconditional) a new item holding just the key. */
  function Base(t: Table, k: Key): (item: Item)
    ensures KeyedAs(item, k) || (k in t && item == t[k])
    ensures k in t ==> item == t[k]
    ensures k !in t ==> item == map["PK" := Str(k.pk), "SK" := Str(k.sk)]
  {
    if k in t then t[k] else map["PK" := Str(k.pk), "SK" := Str(k.sk)]
  }

  /** `update_item`: an upsert of the one keyed item. */
  function UpdateItem(t: Table, u: UpdateRequest): (r: Table)
    requires Applicable(u)
    ensures r.Keys == t.Keys + {u.key}
    ensures r[u.key] == Apply(Base(t, u.key), u.assignments, u.values, u.names)
    ensures forall k :: k in t && k != u.key ==> r[k] == t[k]
    ensures WellKeyed(t) ==> WellKeyed(r)
  {
    var r := t[u.key := Apply(Base(t, u.key), u.assignments, u.values, u.names)];
    assert WellKeyed(t) ==> KeyedAs(r[u.key], u.key);
    r
  }

  // ---------------------------------------------------------------------------
  // ordering by start

  predicate HasTextStart(item: Item) {
    "start" in item && item["start"].Str?
  }

  function StartOf(item: Item): string
    requires HasTextStart(item)
  {
    item["start"].s
  }

  predicate AllTextStart(s: seq<Item>) {
    forall i :: 0 <= i < |s| ==> HasTextStart(s[i])
  }

  predicate SortedByStart(s: seq<Item>)
    requires AllTextStart(s)
  {
    forall i, j :: 0 <= i < j < |s| ==> LessEq(StartOf(s[i]), StartOf(s[j]))
  }

  /** Insert after every item that does not start later (keeps equal starts in
      arrival order). */
  function Insert(x: Item, s: seq<Item>): (r: seq<Item>)
    requires HasTextStart(x) && AllTextStart(s) && SortedByStart(s)
    ensures multiset(r) == multiset(s) + multiset{x}
    ensures AllTextStart(r) && SortedByStart(r)
  {
    if |s| == 0 then [x]
    else if Less(StartOf(x), StartOf(s[0])) then
      InsertFrontSorted(x, s);
      [x] + s
    else
      assert s == [s[0]] + s[1..];
      var rest := Insert(x, s[1..]);
      LessTotal(StartOf(x), StartOf(s[0]));
      InsertBehindSorted(s[0], x, s[1..], rest);
      [s[0]] + rest
  }

  lemma InsertFrontSorted(x: Item, s: seq<Item>)
    requires HasTextStart(x) && AllTextStart(s) && SortedByStart(s) && |s| > 0
    requires Less(StartOf(x), StartOf(s[0]))
    ensures AllTextStart([x] + s) && SortedByStart([x] + s)
  {
    var r := [x] + s;
    forall i, j | 0 <= i < j < |r| ensures LessEq(StartOf(r[i]), StartOf(r[j])) {
      if i == 0 {
        assert r[j] == s[j - 1];
        LessEqTransitive(StartOf(x), StartOf(s[0]), StartOf(s[j - 1]));
      } else {
        assert r[i] == s[i - 1] && r[j] == s[j - 1];
      }
    }
  }

  lemma InsertBehindSorted(head: Item, x: Item, tail: seq<Item>, rest: seq<Item>)
    requires HasTextStart(head) && HasTextStart(x) && AllTextStart(tail) && SortedByStart([head] + tail)
    requires LessEq(StartOf(head), StartOf(x))
    requires AllTextStart(rest) && SortedByStart(rest)
    requires multiset(rest) == multiset(tail) + multiset{x}
    ensures AllTextStart([head] + rest) && SortedByStart([head] + rest)
  {
    var r := [head] + rest;
    forall j | 0 <= j < |rest| ensures LessEq(StartOf(head), StartOf(rest[j])) {
      assert rest[j] in multiset(rest);
      if rest[j] != x {
        assert rest[j] in multiset(tail);
        var k :| 0 <= k < |tail| && tail[k] == rest[j];
        var ht := [head] + tail;
        assert ht[0] == head && ht[k + 1] == tail[k];
        assert LessEq(StartOf(ht[0]), StartOf(ht[k + 1]));
      }
    }
    forall i, j | 0 <= i < j < |r| ensures LessEq(StartOf(r[i]), StartOf(r[j])) {
      if i == 0 {
        assert r[j] == rest[j - 1];
      } else {
        assert r[i] == rest[i - 1] && r[j] == rest[j - 1];
      }
    }
  }

  /** Python's `sorted(items, key=itemgetter('start'))` on text starts: a
      stable insertion sort. */
  function SortByStart(s: seq<Item>): (r: seq<Item>)
    requires AllTextStart(s)
    ensures AllTextStart(r) && SortedByStart(r)
    ensures multiset(r) == multiset(s)
  {
    if |s| == 0 then []
    else
      assert s == s[..|s| - 1] + [s[|s| - 1]];
      Insert(s[|s| - 1], SortByStart(s[..|s| - 1]))
  }

  // ---------------------------------------------------------------------------
  // queries

  /** The index queries the handlers run, with their filters. */
  datatype Query =
    | OwnedBy(uni: string)                                 // uni-index, uni = :uni
    | ActiveEventsStarting(lower: string, upper: string)   // start-index, PK = EVENT, start BETWEEN, active = True

  predicate Matches(q: Query, k: Key, item: Item) {
    match q
    case OwnedBy(u) => "uni" in item && item["uni"] == Str(u)
    case ActiveEventsStarting(lower, upper) =>
      && k.pk == "EVENT"
      && HasTextStart(item) && LessEq(lower, StartOf(item)) && LessEq(StartOf(item), upper)
      && "active" in item && item["active"] == Bool(true)
  }

  /** The items under the given keys that the query selects. */
  function Selected(t: Table, q: Query, ks: set<Key>): set<Item> {
    set k | k in ks && k in t && Matches(q, k, t[k]) :: t[k]
  }

  predicate Distinct(s: seq<Item>) {
    forall i, j :: 0 <= i < j < |s| ==> s[i] != s[j]
  }
}
