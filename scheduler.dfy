/** The reservation handlers of app/views/scheduler.py over the scheduling
    table: `event_select` creates a record, `event_drop` moves or resizes one,
    `event_delete` soft-deletes one, and `event_data` and `index` read. The
    current time, the fresh id, the signature check and whether the store call
    raises are parameters. Each handler has a specification function giving its
    status and the new table; the class's methods are proved against them. */
module Scheduler {
  import opened Wrappers
  import opened Json
  import opened Text
  import opened Store
  import Users

  /** How a handler answers. */
  datatype Status =
    | Ok                 // 'Success', 200
    | Forbidden          // 'You can only modify your own reservations.', 403
    | UnexpectedError    // a caught store exception: 'Unexpected error occured', 500
    | InternalError      // an uncaught exception, answered 500 by Flask
    | BadRequest         // abort(400), or a missing form field
    | RedirectToIndex    // redirect to the scheduler index, 302

  function HttpCode(s: Status): (code: int)
    ensures 200 <= code <= 500
    ensures code == 200 <==> s == Ok
  {
    match s
    case Ok => 200
    case Forbidden => 403
    case UnexpectedError => 500
    case InternalError => 500
    case BadRequest => 400
    case RedirectToIndex => 302
  }

  /** `User().uni` inside a request. */
  function CurrentUni(session: Users.Session): string {
    Users.Uni(Users.User(None), session)
  }

  /** A JSON request body or form: field name to text. */
  type Payload = map<string, string>

  // ---------------------------------------------------------------------------
  // event_select

  /** `data.get(name)` as stored: the text, or `None`. */
  function Field(data: Payload, name: string): Value {
    if name in data then Str(data[name]) else Null
  }

  /** `data.get(name)` inside an f-string. */
  function FieldText(data: Payload, name: string): string {
    if name in data then data[name] else "None"
  }

  function NewEventKey(data: Payload, freshId: string): Key {
    Key("EVENT", FieldText(data, "resourceId") + "#" + freshId)
  }

  /** The item `event_select` puts. */
  function NewEvent(data: Payload, uni: string, freshId: string, now: string): (item: Item)
    ensures KeyedAs(item, NewEventKey(data, freshId))
    ensures item.Keys == {"PK", "SK", "start", "end", "resourceId", "resourceName",
                          "title", "uni", "active", "createdOn", "changedOn"}
    ensures item["uni"] == item["title"] == Str(uni) && item["active"] == Bool(true)
    ensures forall f :: f in {"start", "end", "resourceId", "resourceName"} ==>
              (item[f] == Null <==> f !in data) && (f in data ==> item[f] == Str(data[f]))
  {
    var k := NewEventKey(data, freshId);
    map[
      "PK" := Str(k.pk), "SK" := Str(k.sk),
      "start" := Field(data, "start"), "end" := Field(data, "end"),
      "resourceId" := Field(data, "resourceId"), "resourceName" := Field(data, "resourceName"),
      "title" := Str(uni), "uni" := Str(uni), "active" := Bool(true),
      "createdOn" := Str(now), "changedOn" := Str("")]
  }

  /** `event_select`: status and table afterwards. */
  function SelectOutcome(t: Table, session: Users.Session, data: Payload, freshId: string, now: string, storeFails: bool): (r: (Status, Table))
    ensures r.0 == Ok || r.0 == UnexpectedError
    ensures r.0 == UnexpectedError <==> storeFails
    ensures r.0 == UnexpectedError ==> r.1 == t
    ensures r.0 == Ok ==> r.1.Keys == t.Keys + {NewEventKey(data, freshId)}
  {
    if storeFails then (UnexpectedError, t)
    else (Ok, t[NewEventKey(data, freshId) := NewEvent(data, CurrentUni(session), freshId, now)])
  }

  // ---------------------------------------------------------------------------
  // event_drop

  const DropExpression := "SET #s = :s, #e = :e, changedOn = :t"
  const ResourceClauses := ", resourceId = :r, resourceName = :n"
  const DropNames := map["#s" := "start", "#e" := "end"]

  function DropAssignments(moves: bool): seq<Assignment> {
    [Assignment("#s", ":s"), Assignment("#e", ":e"), Assignment("changedOn", ":t")]
    + (if moves then [Assignment("resourceId", ":r"), Assignment("resourceName", ":n")] else [])
  }

  /** The fields `event_drop` reads before it reaches the store call. */
  predicate DropFieldsPresent(data: Payload) {
    "start" in data && "end" in data && ("newResourceId" in data ==> "newResourceName" in data)
  }

  function DropValues(data: Payload, now: string): map<string, Value>
    requires DropFieldsPresent(data)
  {
    var vals := map[":s" := Str(data["start"]), ":e" := Str(data["end"]), ":t" := Str(now)];
    if "newResourceId" in data then vals[":r" := Str(data["newResourceId"])][":n" := Str(data["newResourceName"])]
    else vals
  }

  function DropUpdate(data: Payload, now: string): UpdateRequest
    requires DropFieldsPresent(data) && "PK" in data && "SK" in data
  {
    var moves := "newResourceId" in data;
    UpdateRequest(Key(data["PK"], data["SK"]), if moves then DropExpression + ResourceClauses else DropExpression,
                  DropAssignments(moves), DropValues(data, now), DropNames)
  }

  /** The expression text is the fixed one, with the resource clauses added
      exactly when the payload names a new resource; the clauses it spells
      write `start`, `end` and `changedOn`, plus `resourceId` and
      `resourceName` exactly then; and the store accepts it: every placeholder
      has a value and every value and name is used. */
  lemma DropUpdateAccepted(data: Payload, now: string)
    requires DropFieldsPresent(data) && "PK" in data && "SK" in data
    ensures var u := DropUpdate(data, now);
      && u.expression == (if "newResourceId" in data then DropExpression + ResourceClauses else DropExpression)
      && Targets(u.assignments, u.names) ==
           {"start", "end", "changedOn"} + (if "newResourceId" in data then {"resourceId", "resourceName"} else {})
      && AcceptedUpdate(u)
  {
    DropEntriesUsed(data, now);
    DropTargets("newResourceId" in data);
  }

  /** Every placeholder and `#name` of a drop has its entry, and every entry is
      used. */
  lemma DropEntriesUsed(data: Payload, now: string)
    requires DropFieldsPresent(data)
    ensures var a, vals := DropAssignments("newResourceId" in data), DropValues(data, now);
      && (forall i :: 0 <= i < |a| ==> a[i].placeholder in vals)
      && (forall i :: 0 <= i < |a| && IsNameRef(a[i].name) ==> a[i].name in DropNames)
      && (forall p :: p in vals ==> exists i :: 0 <= i < |a| && a[i].placeholder == p)
      && (forall n :: n in DropNames ==> exists i :: 0 <= i < |a| && a[i].name == n)
  {
    var a, vals := DropAssignments("newResourceId" in data), DropValues(data, now);
    assert a[0] == Assignment("#s", ":s") && a[1] == Assignment("#e", ":e") && a[2] == Assignment("changedOn", ":t");
    if "newResourceId" in data {
      assert a[3] == Assignment("resourceId", ":r") && a[4] == Assignment("resourceName", ":n");
      assert vals.Keys == {":s", ":e", ":t", ":r", ":n"};
    } else {
      assert vals.Keys == {":s", ":e", ":t"};
    }
  }

  lemma DropTargets(moves: bool)
    ensures Targets(DropAssignments(moves), DropNames) ==
      {"start", "end", "changedOn"} + (if moves then {"resourceId", "resourceName"} else {})
    ensures "PK" !in Targets(DropAssignments(moves), DropNames) && "SK" !in Targets(DropAssignments(moves), DropNames)
  {
    var a := DropAssignments(moves);
    var tail := if moves then [Assignment("resourceId", ":r"), Assignment("resourceName", ":n")] else [];
    assert a[1..][1..][1..] == tail;
    if moves {
      assert tail[1..] == [Assignment("resourceName", ":n")];
      assert Targets(tail[1..], DropNames) == {"resourceName"};
      assert Targets(tail, DropNames) == {"resourceId", "resourceName"};
    }
    assert Targets(a[1..][1..], DropNames) == {"changedOn"} + Targets(tail, DropNames);
    assert Target(a[1], DropNames) == "end";
    assert Target(a[0], DropNames) == "start";
  }

  /** A record after a drop: new `start`, `end` and `changedOn`, and the new
      resource when one is named; nothing else about it changes. */
  function Moved(item: Item, data: Payload, now: string): (r: Item)
    requires DropFieldsPresent(data)
    ensures r.Keys == item.Keys + {"start", "end", "changedOn"}
                      + (if "newResourceId" in data then {"resourceId", "resourceName"} else {})
    ensures r["start"] == Str(data["start"]) && r["end"] == Str(data["end"]) && r["changedOn"] == Str(now)
    ensures "newResourceId" in data ==>
              r["resourceId"] == Str(data["newResourceId"]) && r["resourceName"] == Str(data["newResourceName"])
    ensures forall a :: a in item && a !in {"start", "end", "changedOn", "resourceId", "resourceName"} ==> r[a] == item[a]
    ensures "newResourceId" !in data ==> forall a :: a in item && a !in {"start", "end", "changedOn"} ==> r[a] == item[a]
  {
    var timed := item["start" := Str(data["start"])]["end" := Str(data["end"])]["changedOn" := Str(now)];
    if "newResourceId" in data then
      timed["resourceId" := Str(data["newResourceId"])]["resourceName" := Str(data["newResourceName"])]
    else timed
  }

  /** The clauses `event_drop` sends, applied to a record, give `Moved`. */
  lemma DropApplies(item: Item, data: Payload, now: string)
    requires DropFieldsPresent(data)
    ensures Apply(item, DropAssignments("newResourceId" in data), DropValues(data, now), DropNames) == Moved(item, data, now)
  {
    var vals := DropValues(data, now);
    assert vals[":s"] == Str(data["start"]) && vals[":e"] == Str(data["end"]) && vals[":t"] == Str(now);
    var timed := item["start" := vals[":s"]]["end" := vals[":e"]]["changedOn" := vals[":t"]];
    if "newResourceId" in data {
      assert vals[":r"] == Str(data["newResourceId"]) && vals[":n"] == Str(data["newResourceName"]);
      var a := DropAssignments(true);
      ApplyTimingClauses(item, a, vals);
      ApplyResourceClauses(timed, a[3..], vals);
      assert Moved(item, data, now) == timed["resourceId" := vals[":r"]]["resourceName" := vals[":n"]];
    } else {
      var a := DropAssignments(false);
      ApplyTimingClauses(item, a, vals);
      assert a[3..] == [];
      assert Moved(item, data, now) == timed;
    }
  }

  /** The last two clauses of a drop that changes resource set the resource. */
  lemma ApplyResourceClauses(item: Item, tail: seq<Assignment>, vals: map<string, Value>)
    requires tail == [Assignment("resourceId", ":r"), Assignment("resourceName", ":n")]
    requires ":r" in vals && ":n" in vals
    ensures Apply(item, tail, vals, DropNames) == item["resourceId" := vals[":r"]]["resourceName" := vals[":n"]]
  {
    assert tail[1..] == [Assignment("resourceName", ":n")];
    assert Apply(item, tail, vals, DropNames) == Apply(item["resourceId" := vals[":r"]], tail[1..], vals, DropNames);
  }

  /** The first three clauses of a drop set the times. */
  lemma ApplyTimingClauses(item: Item, a: seq<Assignment>, vals: map<string, Value>)
    requires |a| >= 3 && a[..3] == [Assignment("#s", ":s"), Assignment("#e", ":e"), Assignment("changedOn", ":t")]
    requires forall i :: 0 <= i < |a| ==> a[i].placeholder in vals
    requires ":s" in vals && ":e" in vals && ":t" in vals
    ensures Apply(item, a, vals, DropNames)
         == Apply(item["start" := vals[":s"]]["end" := vals[":e"]]["changedOn" := vals[":t"]], a[3..], vals, DropNames)
  {
    var i1 := item["start" := vals[":s"]];
    var i2 := i1["end" := vals[":e"]];
    assert a[0] == Assignment("#s", ":s") && a[1] == Assignment("#e", ":e") && a[2] == Assignment("changedOn", ":t");
    assert a[1..][0] == a[1] && a[1..][1..][0] == a[2] && a[1..][1..][1..] == a[3..];
    assert Apply(item, a, vals, DropNames) == Apply(i1, a[1..], vals, DropNames);
    assert Apply(i1, a[1..], vals, DropNames) == Apply(i2, a[1..][1..], vals, DropNames);
  }

  /** `event_drop`: status and table afterwards, as the code is written. The
      ownership test compares the payload's `uni` with the current user. */
  function DropOutcome(t: Table, session: Users.Session, data: Payload, now: string, storeFails: bool): (r: (Status, Table))
    ensures r.0 != Ok ==> r.1 == t
    ensures r.0 == Ok ==> "PK" in data && "SK" in data && r.1.Keys == t.Keys + {Key(data["PK"], data["SK"])}
    ensures "uni" in data && data["uni"] == CurrentUni(session) && DropFieldsPresent(data) ==>
      (r.0 == UnexpectedError <==> "PK" !in data || "SK" !in data || storeFails)
    ensures ("uni" in data && data["uni"] == CurrentUni(session) && DropFieldsPresent(data)
             && "PK" in data && "SK" in data && !storeFails) ==> r.0 == Ok
    ensures "uni" !in data ==> r.0 == InternalError
  {
    if "uni" !in data then (InternalError, t)
    else if data["uni"] != CurrentUni(session) then (Forbidden, t)
    else if !DropFieldsPresent(data) then (InternalError, t)
    else if "PK" !in data || "SK" !in data || storeFails then (UnexpectedError, t)
    else (Ok, Dropped(t, data, now))
  }

  /** The table after the drop's update of the payload's key. */
  function Dropped(t: Table, data: Payload, now: string): (t': Table)
    requires DropFieldsPresent(data) && "PK" in data && "SK" in data
    ensures t'.Keys == t.Keys + {Key(data["PK"], data["SK"])}
  {
    DropUpdateAccepted(data, now);
    UpdateItem(t, DropUpdate(data, now))
  }

  /** A refused drop writes nothing; the 403 comes exactly from a payload
      `uni` other than the current user's; a store error past the checks is a
      500 with nothing written. */
  lemma DropRefusalWritesNothing(t: Table, session: Users.Session, data: Payload, now: string, storeFails: bool)
    ensures DropOutcome(t, session, data, now, storeFails).0 != Ok ==> DropOutcome(t, session, data, now, storeFails).1 == t
    ensures DropOutcome(t, session, data, now, storeFails).0 == Forbidden <==> "uni" in data && data["uni"] != CurrentUni(session)
    ensures "uni" in data && data["uni"] == CurrentUni(session) && DropFieldsPresent(data) && storeFails ==>
      DropOutcome(t, session, data, now, storeFails) == (UnexpectedError, t)
  {
  }

  /** The codes `event_drop` answers, as written: 200 exactly for a request
      naming the current user with every field and both keys present when the
      store does not raise, 403 exactly for another user's name, and 500 for
      everything else. */
  lemma DropCodes(t: Table, session: Users.Session, data: Payload, now: string, storeFails: bool)
    ensures var code := HttpCode(DropOutcome(t, session, data, now, storeFails).0);
      && (code == 200 <==> "uni" in data && data["uni"] == CurrentUni(session) && DropFieldsPresent(data)
                           && "PK" in data && "SK" in data && !storeFails)
      && (code == 403 <==> "uni" in data && data["uni"] != CurrentUni(session))
      && (code == 200 || code == 403 || code == 500)
  {
  }

  /** The drop update rewrites the keyed record as `Moved`, creating it from its
      key if it was not there, and leaves every other record as it was. */
  lemma DropUpdateEffect(t: Table, data: Payload, now: string)
    requires DropFieldsPresent(data) && "PK" in data && "SK" in data
    ensures AcceptedUpdate(DropUpdate(data, now))
    ensures var k := Key(data["PK"], data["SK"]);
      UpdateItem(t, DropUpdate(data, now)) == t[k := Moved(Base(t, k), data, now)]
  {
    DropUpdateAccepted(data, now);
    DropApplies(Base(t, Key(data["PK"], data["SK"])), data, now);
  }

  /** A successful drop is one by a user naming itself, with every field the
      handler reads present; it rewrites only the keyed record. */
  lemma DropChangesOnlyItsFields(t: Table, session: Users.Session, data: Payload, now: string, storeFails: bool)
    requires DropOutcome(t, session, data, now, storeFails).0 == Ok
    ensures DropFieldsPresent(data) && "PK" in data && "SK" in data && data["uni"] == CurrentUni(session)
    ensures var k := Key(data["PK"], data["SK"]);
      DropOutcome(t, session, data, now, storeFails).1 == t[k := Moved(Base(t, k), data, now)]
  {
    DropUpdateEffect(t, data, now);
  }

  // ---------------------------------------------------------------------------
  // event_drop, with the ownership test the 403 message promises

  /** The owner test against the stored record: the keyed record exists and its
      `uni` is the current user's. */
  predicate OwnsRecord(t: Table, session: Users.Session, data: Payload) {
    "PK" in data && "SK" in data && Key(data["PK"], data["SK"]) in t
    && "uni" in t[Key(data["PK"], data["SK"])]
    && t[Key(data["PK"], data["SK"])]["uni"] == Str(CurrentUni(session))
  }

  /** `event_drop` with the owner taken from the stored record rather than from
      the payload; otherwise as written. */
  function OwnedDropOutcome(t: Table, session: Users.Session, data: Payload, now: string, storeFails: bool): (r: (Status, Table))
    ensures r.0 != Ok ==> r.1 == t
    ensures r.0 == Ok ==> OwnsRecord(t, session, data) && r.1.Keys == t.Keys
    ensures OwnsRecord(t, session, data) && DropFieldsPresent(data) ==> (r.0 == UnexpectedError <==> storeFails)
    ensures OwnsRecord(t, session, data) && DropFieldsPresent(data) && !storeFails ==> r.0 == Ok
    ensures !OwnsRecord(t, session, data) ==> r.0 == Forbidden
  {
    if !OwnsRecord(t, session, data) then (Forbidden, t)
    else if !DropFieldsPresent(data) then (InternalError, t)
    else if storeFails then (UnexpectedError, t)
    else (Ok, Dropped(t, data, now))
  }

  /** With the stored-owner test a drop succeeds exactly for the current
      user's own record with every field present and no store error; it only
      ever changes that existing record, and never creates one. */
  lemma OwnedDropOnlyMovesOwnRecords(t: Table, session: Users.Session, data: Payload, now: string, storeFails: bool)
    ensures var (status, t') := OwnedDropOutcome(t, session, data, now, storeFails);
      status == Ok <==> OwnsRecord(t, session, data) && DropFieldsPresent(data) && !storeFails
    ensures var (status, t') := OwnedDropOutcome(t, session, data, now, storeFails);
      status != Ok ==> t' == t
    ensures var (status, t') := OwnedDropOutcome(t, session, data, now, storeFails);
      status == Ok ==>
        && OwnsRecord(t, session, data) && DropFieldsPresent(data)
        && var k := Key(data["PK"], data["SK"]);
           t'.Keys == t.Keys && t' == t[k := Moved(t[k], data, now)]
           && t'[k]["uni"] == Str(CurrentUni(session))
  {
    if OwnsRecord(t, session, data) && DropFieldsPresent(data) && !storeFails {
      var k := Key(data["PK"], data["SK"]);
      DropUpdateEffect(t, data, now);
      assert Base(t, k) == t[k];
      var moved := Moved(t[k], data, now);
      assert moved["uni"] == t[k]["uni"];
    }
  }

  /** The codes of the drop with the stored-owner test: 200 exactly when the
      current user owns the stored record, every field is present and the store
      does not raise; 403 exactly when the user does not own it; 500
      otherwise. */
  lemma OwnedDropCodes(t: Table, session: Users.Session, data: Payload, now: string, storeFails: bool)
    ensures var code := HttpCode(OwnedDropOutcome(t, session, data, now, storeFails).0);
      && (code == 200 <==> OwnsRecord(t, session, data) && DropFieldsPresent(data) && !storeFails)
      && (code == 403 <==> !OwnsRecord(t, session, data))
      && (code == 200 || code == 403 || code == 500)
  {
  }

  /** As written, anyone can move anyone's reservation: a user naming itself in
      the payload moves a record another user owns, which stays the other
      user's; the stored-owner test refuses the same request. */
  lemma DropByNonOwnerSucceeds(t: Table, session: Users.Session, data: Payload, now: string, owner: string)
    requires DropFieldsPresent(data) && "PK" in data && "SK" in data
    requires "uni" in data && data["uni"] == CurrentUni(session)
    requires Key(data["PK"], data["SK"]) in t && "uni" in t[Key(data["PK"], data["SK"])]
    requires t[Key(data["PK"], data["SK"])]["uni"] == Str(owner) && owner != CurrentUni(session)
    ensures var (status, t') := DropOutcome(t, session, data, now, false);
      var k := Key(data["PK"], data["SK"]);
      status == Ok && t'[k]["uni"] == Str(owner) && t'[k]["start"] == Str(data["start"])
    ensures OwnedDropOutcome(t, session, data, now, false) == (Forbidden, t)
  {
    DropUpdateEffect(t, data, now);
  }

  /** Such a request exists: `u2` moving `u1`'s booking. */
  lemma NonOwnerDropExample()
    ensures var k := Key("EVENT", "r1#a");
      var t := map[k := map["PK" := Str("EVENT"), "SK" := Str("r1#a"), "uni" := Str("u1")]];
      var data := map["PK" := "EVENT", "SK" := "r1#a", "uni" := "u2", "start" := "s", "end" := "e"];
      var session := Users.Session(true, Some("u2"));
      && DropOutcome(t, session, data, "now", false).0 == Ok
      && DropOutcome(t, session, data, "now", false).1[k]["uni"] == Str("u1")
  {
    var k := Key("EVENT", "r1#a");
    var t := map[k := map["PK" := Str("EVENT"), "SK" := Str("r1#a"), "uni" := Str("u1")]];
    var data := map["PK" := "EVENT", "SK" := "r1#a", "uni" := "u2", "start" := "s", "end" := "e"];
    var session := Users.Session(true, Some("u2"));
    assert CurrentUni(session) == "u2";
    DropByNonOwnerSucceeds(t, session, data, "now", "u1");
  }

  // ---------------------------------------------------------------------------
  // event_delete

  const DeleteExpression := "SET active = :f"

  function DeleteUpdate(k: Key): (u: UpdateRequest)
    ensures AcceptedUpdate(u) && u.expression == DeleteExpression && u.key == k
  {
    UpdateRequest(k, DeleteExpression, [Assignment("active", ":f")], map[":f" := Bool(false)], map[])
  }

  /** `event_delete`: both keys are unsigned first (`unsign` returns `None` for
      a bad signature); any failure before or in the store call is a 400. */
  function DeleteOutcome(t: Table, form: Payload, unsign: string -> Option<string>, storeFails: bool): (r: (Status, Table))
    ensures r.0 == BadRequest || r.0 == RedirectToIndex
    ensures r.0 == BadRequest ==> r.1 == t
    ensures storeFails ==> r == (BadRequest, t)
    ensures r.0 == RedirectToIndex ==>
      "PK" in form && "SK" in form && unsign(form["PK"]).Some? && unsign(form["SK"]).Some?
      && r.1.Keys == t.Keys + {Key(unsign(form["PK"]).value, unsign(form["SK"]).value)}
    ensures "PK" in form && "SK" in form && unsign(form["PK"]).Some? && unsign(form["SK"]).Some? && !storeFails ==>
      r.0 == RedirectToIndex
  {
    if "PK" !in form || unsign(form["PK"]).None? || "SK" !in form || unsign(form["SK"]).None? || storeFails then
      (BadRequest, t)
    else
      (RedirectToIndex, UpdateItem(t, DeleteUpdate(Key(unsign(form["PK"]).value, unsign(form["SK"]).value))))
  }

  /** The effect of the delete update: `active` becomes false and nothing else
      changes. */
  lemma DeleteEffect(t: Table, k: Key)
    ensures UpdateItem(t, DeleteUpdate(k)) == t[k := Base(t, k)["active" := Bool(false)]]
  {
    var u := DeleteUpdate(k);
    assert Apply(Base(t, k), u.assignments, u.values, u.names)
        == Apply(Base(t, k)["active" := Bool(false)], u.assignments[1..], u.values, u.names);
  }

  /** A delete redirects exactly when both keys are present and validly
      signed and the store does not raise; it only clears `active` on the keyed
      record (creating a key-only record if none was there); otherwise it
      writes nothing. No ownership test is made: whoever holds validly signed
      keys may delete. */
  lemma DeleteOnlyDeactivates(t: Table, form: Payload, unsign: string -> Option<string>, storeFails: bool)
    ensures var (status, t') := DeleteOutcome(t, form, unsign, storeFails);
      && (status == BadRequest || status == RedirectToIndex)
      && (status == RedirectToIndex <==>
            "PK" in form && "SK" in form && unsign(form["PK"]).Some? && unsign(form["SK"]).Some? && !storeFails)
      && (status == BadRequest ==> t' == t)
      && (storeFails ==> status == BadRequest && t' == t)
      && (status == RedirectToIndex ==>
            var k := Key(unsign(form["PK"]).value, unsign(form["SK"]).value);
            t' == t[k := Base(t, k)["active" := Bool(false)]])
  {
    if DeleteOutcome(t, form, unsign, storeFails).0 == RedirectToIndex {
      DeleteEffect(t, Key(unsign(form["PK"]).value, unsign(form["SK"]).value));
    }
  }

  /** Deleting twice is deleting once. */
  lemma DeleteIdempotent(t: Table, k: Key)
    ensures var once := UpdateItem(t, DeleteUpdate(k));
      UpdateItem(once, DeleteUpdate(k)) == once
  {
    var b := Base(t, k)["active" := Bool(false)];
    DeleteEffect(t, k);
    var once := t[k := b];
    DeleteEffect(once, k);
    assert Base(once, k) == b;
    assert b["active" := Bool(false)] == b;
    assert once[k := b] == once;
  }

  /** A deleted record no longer appears in the calendar's event query. */
  lemma DeletedNotListed(t: Table, k: Key, lower: string, upper: string)
    ensures !Matches(ActiveEventsStarting(lower, upper), k, UpdateItem(t, DeleteUpdate(k))[k])
  {
    DeleteEffect(t, k);
  }

  // ---------------------------------------------------------------------------
  // event_select properties

  /** A created record belongs to the current user, is active and unchanged, and
      is keyed under `EVENT` and its resource; everything else stays. */
  lemma SelectCreatesOwnedActiveRecord(t: Table, session: Users.Session, data: Payload, freshId: string, now: string)
    ensures var (status, t') := SelectOutcome(t, session, data, freshId, now, false);
      var k := NewEventKey(data, freshId);
      var uni := CurrentUni(session);
      && status == Ok && k.pk == "EVENT" && k.sk == FieldText(data, "resourceId") + "#" + freshId
      && t'.Keys == t.Keys + {k} && KeyedAs(t'[k], k)
      && t'[k]["uni"] == Str(uni) && t'[k]["title"] == Str(uni)
      && t'[k]["active"] == Bool(true) && t'[k]["changedOn"] == Str("") && t'[k]["createdOn"] == Str(now)
      && t'[k]["start"] == Field(data, "start") && t'[k]["end"] == Field(data, "end")
      && (forall other :: other in t && other != k ==> t'[other] == t[other])
  {
  }

  /** No overlap test is made: a second booking of exactly the same slot and
      room is written, and both records are then active. */
  lemma SelectAdmitsDoubleBooking(t: Table, session: Users.Session, data: Payload, id1: string, id2: string, now: string)
    requires id1 != id2
    ensures var t1 := SelectOutcome(t, session, data, id1, now, false).1;
      var (status, t2) := SelectOutcome(t1, session, data, id2, now, false);
      var k1, k2 := NewEventKey(data, id1), NewEventKey(data, id2);
      && status == Ok && k1 != k2
      && t2[k1]["active"] == t2[k2]["active"] == Bool(true)
      && t2[k1]["start"] == t2[k2]["start"] && t2[k1]["end"] == t2[k2]["end"]
      && t2[k1]["resourceId"] == t2[k2]["resourceId"]
  {
    var k1, k2 := NewEventKey(data, id1), NewEventKey(data, id2);
    var p := FieldText(data, "resourceId") + "#";
    assert k1.sk == p + id1 && k2.sk == p + id2;
    assert k1.sk[|p|..] == id1 && k2.sk[|p|..] == id2;
  }

  /** Without a login the record is written for the user `None`. */
  lemma SelectWithoutLogin(t: Table, session: Users.Session, data: Payload, freshId: string, now: string)
    requires !Users.LoggedIn(session)
    ensures SelectOutcome(t, session, data, freshId, now, false).1[NewEventKey(data, freshId)]["uni"] == Str("None")
  {
  }

  /** Records created by the app encode as JSON without the number fallback. */
  lemma CreatedRecordsEncode(data: Payload, uni: string, freshId: string, now: string)
    ensures DumpItem(NewEvent(data, uni, freshId, now)).Some?
  {
  }

  // ---------------------------------------------------------------------------
  // reads

  /** `json_dumps(rows, default=decimal_conversion)`; `None` when it raises. */
  function DumpRows(rows: seq<Item>): (r: Option<seq<map<string, JsonValue>>>)
    ensures r.Some? <==> forall i :: 0 <= i < |rows| ==> DumpItem(rows[i]).Some?
    ensures r.Some? ==> |r.value| == |rows| && forall i :: 0 <= i < |rows| ==> r.value[i] == DumpItem(rows[i]).value
  {
    if |rows| == 0 then Some([])
    else
      match DumpItem(rows[0])
      case None => None
      case Some(first) =>
        assert forall i :: 1 <= i < |rows| ==> rows[i] == rows[1..][i - 1];
        match DumpRows(rows[1..])
        case None => None
        case Some(rest) => Some([first] + rest)
  }

  predicate AtMostOne(s: set<Item>) {
    forall x, y :: x in s && y in s ==> x == y
  }

  /** The update `event_drop` sends, built as the handler builds it: the fixed
      expression and values, then the resource clauses appended when a new
      resource is named. */
  method BuildDropUpdate(data: Payload, now: string) returns (request: UpdateRequest)
    requires DropFieldsPresent(data) && "PK" in data && "SK" in data
    ensures request == DropUpdate(data, now)
  {
    var expr := DropExpression;
    var clauses := [Assignment("#s", ":s"), Assignment("#e", ":e"), Assignment("changedOn", ":t")];
    var vals := map[":s" := Str(data["start"]), ":e" := Str(data["end"]), ":t" := Str(now)];
    if "newResourceId" in data {
      expr := expr + ResourceClauses;
      clauses := clauses + [Assignment("resourceId", ":r"), Assignment("resourceName", ":n")];
      vals := vals[":r" := Str(data["newResourceId"])];
      vals := vals[":n" := Str(data["newResourceName"])];
    }
    request := UpdateRequest(Key(data["PK"], data["SK"]), expr, clauses, vals, map["#s" := "start", "#e" := "end"]);
  }

  /** A query: the matching items, each once, in whatever order the store
      returns them. */
  method RunQuery(t: Table, q: Query) returns (r: seq<Item>)
    requires WellKeyed(t)
    ensures forall x :: x in r <==> x in Selected(t, q, t.Keys)
    ensures Distinct(r)
  {
    var pending := t.Keys;
    r := [];
    while pending != {}
      invariant Collected(t, q, r, pending)
      decreases |pending|
    {
      var k :| k in pending;
      CollectStep(t, q, r, pending, k);
      if Matches(q, k, t[k]) {
        r := r + [t[k]];
      }
      pending := pending - {k};
    }
  }

  /** The loop state of a query: `r` holds the matching items of the keys
      visited so far, each once, and none of the keys still pending. */
  ghost predicate Collected(t: Table, q: Query, r: seq<Item>, pending: set<Key>) {
    && pending <= t.Keys
    && (forall x :: x in r <==> x in Selected(t, q, t.Keys - pending))
    && Unlisted(t, r, pending)
    && Distinct(r)
  }

  /** Visiting one pending key keeps the loop state. */
  lemma CollectStep(t: Table, q: Query, r: seq<Item>, pending: set<Key>, k: Key)
    requires WellKeyed(t) && k in pending && Collected(t, q, r, pending)
    ensures Matches(q, k, t[k]) ==> Collected(t, q, r + [t[k]], pending - {k})
    ensures !Matches(q, k, t[k]) ==> Collected(t, q, r, pending - {k})
  {
    SelectedGrows(t, q, t.Keys - pending, k);
    assert t.Keys - (pending - {k}) == (t.Keys - pending) + {k};
    if Matches(q, k, t[k]) {
      DistinctAppend(r, t[k]);
      UnlistedAfterTaking(t, r, pending, k);
    }
  }

  class SchedulingTable {
    var items: Table

    ghost predicate Valid()
      reads this
    {
      WellKeyed(items)
    }

    constructor (initial: Table)
      requires WellKeyed(initial)
      ensures Valid() && items == initial
    {
      items := initial;
    }

    /** `event_select`. */
    method EventSelect(session: Users.Session, data: Payload, freshId: string, now: string, storeFails: bool)
      returns (status: Status)
      requires Valid()
      modifies this
      ensures Valid()
      ensures (status, items) == SelectOutcome(old(items), session, data, freshId, now, storeFails)
    {
      var uni := CurrentUni(session);
      var key := Key("EVENT", FieldText(data, "resourceId") + "#" + freshId);
      var item := map[
        "PK" := Str(key.pk), "SK" := Str(key.sk),
        "start" := Field(data, "start"), "end" := Field(data, "end"),
        "resourceId" := Field(data, "resourceId"), "resourceName" := Field(data, "resourceName"),
        "title" := Str(uni), "uni" := Str(uni), "active" := Bool(true),
        "createdOn" := Str(now), "changedOn" := Str("")];
      if storeFails {
        return UnexpectedError;
      }
      items := items[key := item];
      status := Ok;
    }

    /** `event_drop`, as written: the expression and its values are built step
        by step, then sent as one unconditional update. */
    method EventDrop(session: Users.Session, data: Payload, now: string, storeFails: bool)
      returns (status: Status)
      requires Valid()
      modifies this
      ensures Valid()
      ensures (status, items) == DropOutcome(old(items), session, data, now, storeFails)
    {
      if "uni" !in data {
        return InternalError;
      }
      if data["uni"] != CurrentUni(session) {
        return Forbidden;
      }
      if "start" !in data || "end" !in data {
        return InternalError;
      }
      if "newResourceId" in data && "newResourceName" !in data {
        return InternalError;
      }
      if "PK" !in data || "SK" !in data || storeFails {
        return UnexpectedError;
      }
      var request := BuildDropUpdate(data, now);
      DropUpdateAccepted(data, now);
      items := UpdateItem(items, request);
      status := Ok;
    }

    /** `event_drop` with the owner read from the stored record. */
    method EventDropOwned(session: Users.Session, data: Payload, now: string, storeFails: bool)
      returns (status: Status)
      requires Valid()
      modifies this
      ensures Valid()
      ensures (status, items) == OwnedDropOutcome(old(items), session, data, now, storeFails)
    {
      if "PK" !in data || "SK" !in data {
        return Forbidden;
      }
      var k := Key(data["PK"], data["SK"]);
      if k !in items || "uni" !in items[k] || items[k]["uni"] != Str(CurrentUni(session)) {
        return Forbidden;
      }
      if !DropFieldsPresent(data) {
        return InternalError;
      }
      if storeFails {
        return UnexpectedError;
      }
      DropUpdateAccepted(data, now);
      items := UpdateItem(items, DropUpdate(data, now));
      status := Ok;
    }

    /** `event_delete`. */
    method EventDelete(form: Payload, unsign: string -> Option<string>, storeFails: bool)
      returns (status: Status)
      requires Valid()
      modifies this
      ensures Valid()
      ensures (status, items) == DeleteOutcome(old(items), form, unsign, storeFails)
    {
      if "PK" !in form || "SK" !in form {
        return BadRequest;
      }
      var pk := unsign(form["PK"]);
      var sk := unsign(form["SK"]);
      if pk.None? || sk.None? || storeFails {
        return BadRequest;
      }
      items := UpdateItem(items, DeleteUpdate(Key(pk.value, sk.value)));
      status := RedirectToIndex;
    }

    /** `event_data`: active events whose start lies in the requested range,
        ordered by start as the index returns them, then the not-available
        items (the scan of that index is a parameter: its key schema is not
        in the code). */
    method EventData(args: Payload, notAvailable: seq<Item>)
      returns (status: Status, rows: seq<Item>, body: seq<map<string, JsonValue>>)
      requires Valid()
      ensures "start" !in args || "end" !in args ==> status == RedirectToIndex && rows == [] && body == []
      ensures "start" in args && "end" in args && Less(args["end"], args["start"]) ==> status == InternalError && rows == []
      ensures "start" in args && "end" in args && LessEq(args["start"], args["end"]) ==>
        && |notAvailable| <= |rows| && rows[|rows| - |notAvailable|..] == notAvailable
        && AllTextStart(rows[..|rows| - |notAvailable|]) && SortedByStart(rows[..|rows| - |notAvailable|])
        && Distinct(rows[..|rows| - |notAvailable|])
        && (forall x :: x in rows[..|rows| - |notAvailable|] <==>
              x in Selected(items, ActiveEventsStarting(args["start"], args["end"]), items.Keys))
        && (status == Ok <==> DumpRows(rows).Some?)
        && (status == Ok ==> body == DumpRows(rows).value)
        && (status != Ok ==> status == InternalError)
    {
      if "start" !in args || "end" !in args {
        return RedirectToIndex, [], [];
      }
      var lower, upper := args["start"], args["end"];
      if Less(upper, lower) {
        LessAsymmetric(upper, lower);
        if upper == lower {
          LessIrreflexive(upper);
        }
        return InternalError, [], [];
      }
      var found := RunQuery(items, ActiveEventsStarting(lower, upper));
      assert AllTextStart(found) by {
        forall i | 0 <= i < |found| ensures HasTextStart(found[i]) {
          assert found[i] in Selected(items, ActiveEventsStarting(lower, upper), items.Keys);
        }
      }
      var events := SortByStart(found);
      SortedKeepsElements(found, events);
      rows := events + notAvailable;
      assert rows[..|events|] == events && rows[|events|..] == notAvailable;
      var dumped := DumpRows(rows);
      if dumped.None? {
        return InternalError, rows, [];
      }
      status, body := Ok, dumped.value;
    }

    /** `index`: the current user's reservations, sorted by start. A record
        without `start` raises; so does sorting starts that are not all text. */
    method Index(session: Users.Session) returns (status: Status, events: seq<Item>)
      requires Valid()
      ensures status == Ok || status == InternalError
      ensures status == Ok <==>
        && (forall x :: x in Selected(items, OwnedBy(CurrentUni(session)), items.Keys) ==> "start" in x)
        && ((forall x :: x in Selected(items, OwnedBy(CurrentUni(session)), items.Keys) ==> HasTextStart(x))
            || AtMostOne(Selected(items, OwnedBy(CurrentUni(session)), items.Keys)))
      ensures status == Ok ==>
        && Distinct(events)
        && (forall x :: x in events <==> x in Selected(items, OwnedBy(CurrentUni(session)), items.Keys))
        && (AllTextStart(events) ==> SortedByStart(events))
    {
      var found := RunQuery(items, OwnedBy(CurrentUni(session)));
      ghost var selected := Selected(items, OwnedBy(CurrentUni(session)), items.Keys);
      if exists i :: 0 <= i < |found| && "start" !in found[i] {
        return InternalError, [];
      }
      if forall i :: 0 <= i < |found| ==> HasTextStart(found[i]) {
        events := SortByStart(found);
        SortedKeepsElements(found, events);
        return Ok, events;
      }
      if |found| <= 1 {
        return Ok, found;
      }
      assert found[0] != found[1];
      assert found[0] in selected && found[1] in selected;
      return InternalError, [];
    }
  }

  /** Visiting one more key adds its item exactly when the query matches it. */
  lemma SelectedGrows(t: Table, q: Query, done: set<Key>, k: Key)
    requires k in t
    ensures Selected(t, q, done + {k}) == Selected(t, q, done) + (if Matches(q, k, t[k]) then {t[k]} else {})
  {
  }

  /** No item still to be visited is already in the result. */
  predicate Unlisted(t: Table, r: seq<Item>, pending: set<Key>)
  {
    forall k :: k in pending && k in t ==> t[k] !in r
  }

  lemma UnlistedAfterTaking(t: Table, r: seq<Item>, pending: set<Key>, k: Key)
    requires WellKeyed(t) && pending <= t.Keys && k in pending
    requires Unlisted(t, r, pending)
    ensures Unlisted(t, r + [t[k]], pending - {k})
  {
    forall k' | k' in pending - {k} ensures t[k'] !in r + [t[k]] {
      DistinctKeysDistinctItems(t, k, k');
    }
  }

  lemma DistinctAppend(s: seq<Item>, x: Item)
    requires Distinct(s) && x !in s
    ensures Distinct(s + [x])
  {
    var r := s + [x];
    forall i, j | 0 <= i < j < |r| ensures r[i] != r[j] {
      if j == |s| {
        assert r[i] == s[i];
      } else {
        assert r[i] == s[i] && r[j] == s[j];
      }
    }
  }

  /** Sorting keeps the elements and their distinctness. */
  lemma SortedKeepsElements(s: seq<Item>, r: seq<Item>)
    requires multiset(r) == multiset(s)
    requires Distinct(s)
    ensures forall x :: x in r <==> x in s
    ensures Distinct(r)
  {
    forall x ensures x in r <==> x in s {
      assert x in r <==> x in multiset(r);
      assert x in s <==> x in multiset(s);
    }
    forall i, j | 0 <= i < j < |r| ensures r[i] != r[j] {
      if r[i] == r[j] {
        var x := r[i];
        assert multiset(r)[x] >= 2 by {
          assert r == r[..i] + [x] + r[i + 1..j] + [x] + r[j + 1..];
        }
        DistinctCountsOne(s, x);
      }
    }
  }

  lemma {:induction false} DistinctCountsOne(s: seq<Item>, x: Item)
    requires Distinct(s)
    ensures multiset(s)[x] <= 1
    decreases |s|
  {
    if |s| > 0 {
      assert s == [s[0]] + s[1..];
      assert Distinct(s[1..]);
      DistinctCountsOne(s[1..], x);
      if s[0] == x {
        assert x !in s[1..];
      }
    }
  }
}
