/**
 * The itinerary handlers (server/controllers/itineraryController.js) over
 * the Itineraries table, each scoped to the authenticated caller: list,
 * create, update and delete. A row another user owns is answered exactly
 * like a missing row. `fault` stands for an exception the database raises
 * (its message is what the handler reports).
 */
module ItineraryController {
  import opened Js
  import opened ItineraryModel

  /** The ORM errors a handler reports as 400 `{ error: error.message }`. */
  datatype Failure = NotNull(fields: seq<string>) | NullPrimaryKey | DuplicateKey | DbFault(message: string)

  /** The JSON bodies the handlers send. */
  datatype Body =
    | One(itinerary: Itinerary)
    | Many(items: seq<Itinerary>)
    | Message(message: string)
    | Error(error: string)
    | Failed(failure: Failure)

  datatype Response = Response(status: int, body: Body)

  /** The table after a handler ran, and the response it sent. */
  datatype Outcome = Outcome(rows: seq<Itinerary>, response: Response)

  const NotFound := Response(404, Error("Itinerary not found"))
  const Deleted := Response(200, Message("Itinerary deleted"))

  /** `findAll({ where: { userId } })`: the user's rows in table order. */
  function Owned(rows: seq<Itinerary>, user: Id): (r: seq<Itinerary>)
    ensures forall x :: x in r <==> x in rows && x.userId == user
    ensures |r| <= |rows|
  {
    if rows == [] then []
    else (if rows[0].userId == user then [rows[0]] else []) + Owned(rows[1..], user)
  }

  lemma {:induction false} OwnedConcat(a: seq<Itinerary>, b: seq<Itinerary>, user: Id)
    ensures Owned(a + b, user) == Owned(a, user) + Owned(b, user)
  {
    if a == [] {
      assert a + b == b;
    } else {
      assert (a + b)[0] == a[0];
      assert (a + b)[1..] == a[1..] + b;
      OwnedConcat(a[1..], b, user);
    }
  }

  /** The index of the first row with key `id` owned by `user`, from `i` on. */
  function FindOwnedFrom(rows: seq<Itinerary>, id: Id, user: Id, i: nat): (k: Option<nat>)
    requires i <= |rows|
    ensures k.Some? ==> i <= k.value < |rows| && rows[k.value].id == id && rows[k.value].userId == user
    ensures k.None? <==> forall j :: i <= j < |rows| ==> !(rows[j].id == id && rows[j].userId == user)
    decreases |rows| - i
  {
    if i == |rows| then None
    else if rows[i].id == id && rows[i].userId == user then Some(i)
    else FindOwnedFrom(rows, id, user, i + 1)
  }

  /** `findOne({ where: { id, userId } })`: one lookup on both conditions. */
  function FindOwned(rows: seq<Itinerary>, id: Id, user: Id): (k: Option<nat>)
    ensures k.Some? ==> k.value < |rows| && rows[k.value].id == id && rows[k.value].userId == user
    ensures k.None? <==> forall j :: 0 <= j < |rows| ==> !(rows[j].id == id && rows[j].userId == user)
  {
    FindOwnedFrom(rows, id, user, 0)
  }

  /** `getAllItineraries`: exactly the caller's rows. */
  function GetAll(rows: seq<Itinerary>, caller: Id, fault: Option<string>): (r: Outcome)
    ensures r.rows == rows
    ensures fault.Some? ==> r.response == Response(400, Failed(DbFault(fault.value)))
    ensures fault.None? ==> r.response.status == 200 && r.response.body.Many?
    ensures fault.None? ==> forall x :: x in r.response.body.items <==> x in rows && x.userId == caller
  {
    if fault.Some? then Outcome(rows, Response(400, Failed(DbFault(fault.value))))
    else Outcome(rows, Response(200, Many(Owned(rows, caller))))
  }

  /** Some row already has the key `id`. */
  predicate KeyTaken(rows: seq<Itinerary>, id: Id)
  {
    exists i :: 0 <= i < |rows| && rows[i].id == id
  }

  /**
   * `createItinerary`: the body's properties with `userId` forced to the
   * caller. A missing or `null` non-null attribute, a `null` key, a
   * database fault or a taken key answers 400 and stores nothing; otherwise
   * the row is appended and answered 201.
   */
  function Create(rows: seq<Itinerary>, caller: Id, body: Fields, freshId: Id, fault: Option<string>): (r: Outcome)
    ensures r.response.status in {201, 400}
    ensures r.response.status == 201 <==>
              && body.title.Given? && body.startDate.Given? && body.endDate.Given? && body.budget.Given?
              && !body.id.Null? && fault.None?
              && !KeyTaken(rows, if body.id.Given? then body.id.value else freshId)
    ensures r.response.status == 400 ==> r.rows == rows && r.response.body.Failed?
    ensures !(body.title.Given? && body.startDate.Given? && body.endDate.Given? && body.budget.Given?) ==>
              r.response == Response(400, Failed(NotNull(MissingRequired(body.(userId := Given(caller))))))
    ensures body.title.Given? && body.startDate.Given? && body.endDate.Given? && body.budget.Given? && body.id.Null? ==>
              r.response == Response(400, Failed(NullPrimaryKey))
    ensures (&& body.title.Given? && body.startDate.Given? && body.endDate.Given? && body.budget.Given?
             && !body.id.Null? && fault.Some?)
              ==> r.response == Response(400, Failed(DbFault(fault.value)))
    ensures (&& body.title.Given? && body.startDate.Given? && body.endDate.Given? && body.budget.Given?
             && !body.id.Null? && fault.None?
             && KeyTaken(rows, if body.id.Given? then body.id.value else freshId))
              ==> r.response == Response(400, Failed(DuplicateKey))
    ensures r.response.status == 201 ==>
              && |r.rows| == |rows| + 1 && r.rows[..|rows|] == rows
              && r.response == Response(201, One(r.rows[|rows|]))
    ensures r.response.status == 201 ==>
              var row := r.rows[|rows|];
              && row.userId == caller
              && row.id == (if body.id.Given? then body.id.value else freshId)
              && row.title == body.title.value && row.startDate == body.startDate.value
              && row.endDate == body.endDate.value && row.budget == body.budget.value
              && (body.activities.Absent? ==> row.activities == Some([]))
              && (body.activities.Null? ==> row.activities == None)
              && (body.activities.Given? ==> row.activities == Some(body.activities.value))
              && (body.weatherData.Absent? ==> row.weatherData == Some(map[]))
              && (body.weatherData.Null? ==> row.weatherData == None)
              && (body.weatherData.Given? ==> row.weatherData == Some(body.weatherData.value))
  {
    var b := Build(body.(userId := Given(caller)), freshId);
    if b.NullViolation? then Outcome(rows, Response(400, Failed(NotNull(b.fields))))
    else if b.NullKey? then Outcome(rows, Response(400, Failed(NullPrimaryKey)))
    else if fault.Some? then Outcome(rows, Response(400, Failed(DbFault(fault.value))))
    else if KeyTaken(rows, b.row.id) then Outcome(rows, Response(400, Failed(DuplicateKey)))
    else Outcome(rows + [b.row], Response(201, One(b.row)))
  }

  /**
   * `updateItinerary`: finds the row with this key owned by the caller
   * (404 otherwise, the table unchanged) and writes exactly the attributes
   * present in the body; a `null` for a non-null attribute answers 400 and
   * writes nothing; every other row is unchanged. As written, a `userId` in
   * the body is applied as well.
   */
  function Update(rows: seq<Itinerary>, caller: Id, id: Id, patch: Fields, fault: Option<string>): (r: Outcome)
    ensures r.response.status in {200, 400, 404}
    ensures fault.Some? ==> r.response == Response(400, Failed(DbFault(fault.value)))
    ensures r.response.status == 404 <==> fault.None? && FindOwned(rows, id, caller).None?
    ensures r.response.status == 404 ==> r.response == NotFound
    ensures r.response.status == 200 <==>
              fault.None? && FindOwned(rows, id, caller).Some? && NulledRequired(patch) == []
    ensures fault.None? && FindOwned(rows, id, caller).Some? && NulledRequired(patch) != [] ==>
              r.response == Response(400, Failed(NotNull(NulledRequired(patch))))
    ensures r.response.status != 200 ==> r.rows == rows
    ensures r.response.status == 200 ==>
              var k := FindOwned(rows, id, caller).value;
              && |r.rows| == |rows|
              && (forall j :: 0 <= j < |rows| && j != k ==> r.rows[j] == rows[j])
              && ApplyPatch(rows[k], patch) == Row(r.rows[k])
              && r.response == Response(200, One(r.rows[k]))
  {
    if fault.Some? then Outcome(rows, Response(400, Failed(DbFault(fault.value))))
    else match FindOwned(rows, id, caller)
      case None => Outcome(rows, NotFound)
      case Some(k) =>
        var b := ApplyPatch(rows[k], patch);
        if b.NullViolation? then Outcome(rows, Response(400, Failed(NotNull(b.fields))))
        else Outcome(rows[k := b.row], Response(200, One(b.row)))
  }

  /**
   * `deleteItinerary`: finds the row with this key owned by the caller
   * (404 otherwise, the table unchanged) and removes that row only.
   */
  function Delete(rows: seq<Itinerary>, caller: Id, id: Id, fault: Option<string>): (r: Outcome)
    ensures r.response.status in {200, 400, 404}
    ensures fault.Some? ==> r.response == Response(400, Failed(DbFault(fault.value)))
    ensures r.response.status == 404 <==> fault.None? && FindOwned(rows, id, caller).None?
    ensures r.response.status == 404 ==> r.response == NotFound
    ensures r.response.status == 200 <==> fault.None? && FindOwned(rows, id, caller).Some?
    ensures r.response.status != 200 ==> r.rows == rows
    ensures r.response.status == 200 ==>
              var k := FindOwned(rows, id, caller).value;
              r.rows == rows[..k] + rows[k + 1..] && r.response == Deleted
  {
    if fault.Some? then Outcome(rows, Response(400, Failed(DbFault(fault.value))))
    else match FindOwned(rows, id, caller)
      case None => Outcome(rows, NotFound)
      case Some(k) => Outcome(rows[..k] + rows[k + 1..], Deleted)
  }

  // ---------------------------------------------------------------------
  // Properties across handlers
  // ---------------------------------------------------------------------

  /** A create keeps the primary key unique. */
  lemma CreatePreservesUniqueIds(rows: seq<Itinerary>, caller: Id, body: Fields, freshId: Id, fault: Option<string>)
    requires UniqueIds(rows)
    ensures UniqueIds(Create(rows, caller, body, freshId, fault).rows)
  {
    var c := Create(rows, caller, body, freshId, fault).rows;
    if |c| != |rows| {
      forall i, j | 0 <= i < j < |c| ensures c[i].id != c[j].id {
        assert c[i] == rows[i];
        if j < |rows| { assert c[j] == rows[j]; }
      }
    }
  }

  /** An update keeps the primary key unique: it never changes a row's key. */
  lemma UpdatePreservesUniqueIds(rows: seq<Itinerary>, caller: Id, id: Id, patch: Fields, fault: Option<string>)
    requires UniqueIds(rows)
    ensures UniqueIds(Update(rows, caller, id, patch, fault).rows)
  {
    var u := Update(rows, caller, id, patch, fault).rows;
    forall j | 0 <= j < |u| ensures u[j].id == rows[j].id {
    }
  }

  /** A delete keeps the primary key unique. */
  lemma DeletePreservesUniqueIds(rows: seq<Itinerary>, caller: Id, id: Id, fault: Option<string>)
    requires UniqueIds(rows)
    ensures UniqueIds(Delete(rows, caller, id, fault).rows)
  {
    var d := Delete(rows, caller, id, fault).rows;
    if d != rows {
      var k := FindOwned(rows, id, caller).value;
      forall i, j | 0 <= i < j < |d| ensures d[i].id != d[j].id {
        var i' := if i < k then i else i + 1;
        var j' := if j < k then j else j + 1;
        assert d[i] == rows[i'] && d[j] == rows[j'];
      }
    }
  }

  /**
   * A second delete of the same key answers 404: the first removed the only
   * row with that key.
   */
  lemma DeleteTwiceNotFound(rows: seq<Itinerary>, caller: Id, id: Id)
    requires UniqueIds(rows) && FindOwned(rows, id, caller).Some?
    ensures Delete(rows, caller, id, None).response == Deleted
    ensures Delete(Delete(rows, caller, id, None).rows, caller, id, None).response == NotFound
  {
    var k := FindOwned(rows, id, caller).value;
    var d := Delete(rows, caller, id, None).rows;
    forall j | 0 <= j < |d| ensures d[j].id != id {
      if j < k { assert d[j] == rows[j]; } else { assert d[j] == rows[j + 1]; }
    }
  }

  /**
   * Round trip: after a successful create, the caller's list holds a row
   * with the submitted title, dates, budget and activities (and nothing of
   * `location`, which the model does not store).
   */
  lemma CreateThenList(rows: seq<Itinerary>, caller: Id, body: Fields, freshId: Id)
    requires body.title.Given? && body.startDate.Given? && body.endDate.Given? && body.budget.Given?
    requires !body.id.Null? && !KeyTaken(rows, if body.id.Given? then body.id.value else freshId)
    ensures Create(rows, caller, body, freshId, None).response.status == 201
    ensures var after := Create(rows, caller, body, freshId, None).rows;
            var items := GetAll(after, caller, None).response.body.items;
            exists x :: x in items
              && x.title == body.title.value && x.startDate == body.startDate.value
              && x.endDate == body.endDate.value && x.budget == body.budget.value
              && x.activities == Column(body.activities, [])
  {
    var after := Create(rows, caller, body, freshId, None).rows;
    assert after[|rows|] in after;
  }

  /** An update whose body carries an activity list stores that list as it is: no merge. */
  lemma UpdateReplacesActivities(rows: seq<Itinerary>, caller: Id, id: Id, patch: Fields)
    requires patch.activities.Given? && FindOwned(rows, id, caller).Some? && NulledRequired(patch) == []
    ensures Update(rows, caller, id, patch, None).response.status == 200
    ensures Update(rows, caller, id, patch, None).response.body.itinerary.activities == Some(patch.activities.value)
  {
  }

  /** A single row owned by someone else adds nothing to `user`'s list. */
  lemma OwnedForeignSingleton(x: Itinerary, user: Id)
    requires x.userId != user
    ensures Owned([x], user) == []
  {
    assert [x][1..] == [];
  }

  /** Any other user's list is the same after a create by `caller`. */
  lemma CreateIsolatesOwners(rows: seq<Itinerary>, caller: Id, other: Id, body: Fields, freshId: Id, fault: Option<string>)
    requires other != caller
    ensures Owned(Create(rows, caller, body, freshId, fault).rows, other) == Owned(rows, other)
  {
    var c := Create(rows, caller, body, freshId, fault);
    if c.response.status == 201 {
      var x := c.rows[|rows|];
      assert c.rows == rows + [x];
      OwnedConcat(rows, [x], other);
      OwnedForeignSingleton(x, other);
    }
  }

  /** A row owned by someone else, wherever it sits, adds nothing to `user`'s list. */
  lemma OwnedSkipsForeign(front: seq<Itinerary>, x: Itinerary, back: seq<Itinerary>, user: Id)
    requires x.userId != user
    ensures Owned(front + ([x] + back), user) == Owned(front, user) + Owned(back, user)
  {
    OwnedConcat(front, [x] + back, user);
    OwnedConcat([x], back, user);
    OwnedForeignSingleton(x, user);
  }

  /** Any other user's list is the same after a delete by `caller`. */
  lemma DeleteIsolatesOwners(rows: seq<Itinerary>, caller: Id, other: Id, id: Id, fault: Option<string>)
    requires other != caller
    ensures Owned(Delete(rows, caller, id, fault).rows, other) == Owned(rows, other)
  {
    var d := Delete(rows, caller, id, fault);
    if d.response.status == 200 {
      var k := FindOwned(rows, id, caller).value;
      SplitAround(rows, k);
      OwnedSkipsForeign(rows[..k], rows[k], rows[k + 1..], other);
      OwnedConcat(rows[..k], rows[k + 1..], other);
    }
  }

  /** Replacing one row of `caller` by another row of `caller` leaves every other user's list as it was. */
  lemma ReplaceOwnRowIsolates(rows: seq<Itinerary>, k: int, row: Itinerary, caller: Id, other: Id)
    requires 0 <= k < |rows| && rows[k].userId == caller && row.userId == caller && other != caller
    ensures Owned(rows[k := row], other) == Owned(rows, other)
  {
    var s := rows[k := row];
    SplitAround(rows, k);
    SplitAround(s, k);
    assert s[..k] == rows[..k] && s[k + 1..] == rows[k + 1..];
    OwnedSkipsForeign(rows[..k], rows[k], rows[k + 1..], other);
    OwnedSkipsForeign(rows[..k], row, rows[k + 1..], other);
  }

  /**
   * As written, the owner of a row can hand it to another user: an update
   * whose body names a different `userId` moves the row into that user's
   * list and out of the caller's.
   */
  lemma UpdateCanReassignOwner()
    ensures var row := Itinerary("trip-1", "alice", "Paris Trip", "2025-06-01", "2025-06-03", "1500", Some([]), Some(map[]));
            var patch := NoFields.(userId := Given("bob"));
            var after := Update([row], "alice", "trip-1", patch, None).rows;
            && Owned(after, "alice") == []
            && Owned([row], "bob") == []
            && Owned(after, "bob") == [row.(userId := "bob")]
  {
    var row := Itinerary("trip-1", "alice", "Paris Trip", "2025-06-01", "2025-06-03", "1500", Some([]), Some(map[]));
    var patch := NoFields.(userId := Given("bob"));
    assert FindOwned([row], "trip-1", "alice") == Some(0);
    var after := Update([row], "alice", "trip-1", patch, None).rows;
    assert after == [row.(userId := "bob")];
    assert after[1..] == [] && [row][1..] == [];
  }

  /**
   * `updateItinerary` as evidently intended: like `createItinerary`, the
   * body cannot choose the owner, so `userId` in the body is ignored.
   * The updated row stays the caller's and every other user's list is
   * unchanged.
   */
  function UpdateKeepingOwner(rows: seq<Itinerary>, caller: Id, id: Id, patch: Fields, fault: Option<string>): (r: Outcome)
    ensures fault.Some? ==> r.response == Response(400, Failed(DbFault(fault.value)))
    ensures r.response.status == 404 <==> fault.None? && FindOwned(rows, id, caller).None?
    ensures r.response.status != 200 ==> r.rows == rows
    ensures r.response.status == 200 <==>
              fault.None? && FindOwned(rows, id, caller).Some? && NulledRequired(patch.(userId := Absent)) == []
    ensures r.response.status == 200 ==>
              var k := FindOwned(rows, id, caller).value;
              && k < |r.rows| && r.rows[k].userId == caller && r.rows[k].id == id
              && r.rows == rows[k := r.rows[k]]
  {
    Update(rows, caller, id, patch.(userId := Absent), fault)
  }

  /** With the owner kept, an update by `caller` leaves every other user's list unchanged. */
  lemma UpdateKeepingOwnerIsolates(rows: seq<Itinerary>, caller: Id, other: Id, id: Id, patch: Fields, fault: Option<string>)
    requires other != caller
    ensures Owned(UpdateKeepingOwner(rows, caller, id, patch, fault).rows, other) == Owned(rows, other)
  {
    var r := UpdateKeepingOwner(rows, caller, id, patch, fault);
    if r.response.status == 200 {
      var k := FindOwned(rows, id, caller).value;
      ReplaceOwnRowIsolates(rows, k, r.rows[k], caller, other);
    }
  }
}
