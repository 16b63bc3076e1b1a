/**
 * The list page (client/src/pages/Itineraries.jsx): loading the caller's
 * itineraries and deleting one of them from the local list.
 */
module ItinerariesPage {
  import opened Js
  import opened ItineraryModel
  import ItineraryController

  /** The page's state: the list shown, the loading flag, the error shown. */
  datatype State = State(items: seq<Itinerary>, loading: bool, error: Option<string>)

  /** The initial state: nothing loaded yet. */
  const Initial := State([], true, None)

  const LoadFailed := "Failed to load itineraries"
  const DeleteFailed := "Failed to delete itinerary"

  /** What the list request settled with. */
  datatype Fetched = Loaded(data: seq<Itinerary>) | LoadError

  /** `loadItineraries`: the data replaces the list, or the error is shown; loading ends either way. */
  function LoadItineraries(s: State, fetched: Fetched): (r: State)
    ensures !r.loading
    ensures fetched.Loaded? ==> r.items == fetched.data && r.error == s.error
    ensures fetched.LoadError? ==> r.items == s.items && r.error == Some(LoadFailed)
  {
    match fetched
    case Loaded(data) => s.(items := data, loading := false)
    case LoadError => s.(error := Some(LoadFailed), loading := false)
  }

  /** `items.filter((item) => item.id !== id)`: exactly the items with a different key. */
  function RemoveId(items: seq<Itinerary>, id: Id): (r: seq<Itinerary>)
    ensures forall x :: x in r <==> x in items && x.id != id
    ensures |r| <= |items|
  {
    if items == [] then []
    else (if items[0].id != id then [items[0]] else []) + RemoveId(items[1..], id)
  }

  /**
   * `handleDelete(id)`: after the server confirmed, every item with that key
   * leaves the list and the rest keep their order; on failure the list is
   * unchanged and the error is shown.
   */
  function HandleDelete(s: State, id: Id, confirmed: bool): (r: State)
    ensures confirmed ==> r.items == RemoveId(s.items, id) && r.error == s.error
    ensures !confirmed ==> r.items == s.items && r.error == Some(DeleteFailed)
    ensures r.loading == s.loading
  {
    if confirmed then s.(items := RemoveId(s.items, id))
    else s.(error := Some(DeleteFailed))
  }

  /** The filter distributes over concatenation: the remaining items keep their relative order. */
  lemma {:induction false} RemoveIdConcat(a: seq<Itinerary>, b: seq<Itinerary>, id: Id)
    ensures RemoveId(a + b, id) == RemoveId(a, id) + RemoveId(b, id)
  {
    if a == [] {
      assert a + b == b;
    } else {
      assert (a + b)[0] == a[0];
      assert (a + b)[1..] == a[1..] + b;
      RemoveIdConcat(a[1..], b, id);
    }
  }

  /** A list holding no item with the key is left as it is. */
  lemma {:induction false} RemoveIdAbsent(items: seq<Itinerary>, id: Id)
    requires forall i :: 0 <= i < |items| ==> items[i].id != id
    ensures RemoveId(items, id) == items
  {
    if items != [] {
      RemoveIdAbsent(items[1..], id);
      assert [items[0]] + items[1..] == items;
    }
  }

  /** With unique keys, no item before or after position `k` has the key of item `k`. */
  lemma OthersHaveOtherIds(items: seq<Itinerary>, k: int, front: seq<Itinerary>, back: seq<Itinerary>)
    requires UniqueIds(items) && 0 <= k < |items|
    requires front == items[..k] && back == items[k + 1..]
    ensures forall i :: 0 <= i < |front| ==> front[i].id != items[k].id
    ensures forall i :: 0 <= i < |back| ==> back[i].id != items[k].id
  {
    forall i | 0 <= i < |front| ensures front[i].id != items[k].id {
      assert front[i] == items[i];
    }
    forall i | 0 <= i < |back| ensures back[i].id != items[k].id {
      assert back[i] == items[k + 1 + i];
    }
  }

  /** Removing the key of the one item that has it, between two parts that do not. */
  lemma RemoveIdSplit(front: seq<Itinerary>, x: Itinerary, back: seq<Itinerary>)
    requires forall i :: 0 <= i < |front| ==> front[i].id != x.id
    requires forall i :: 0 <= i < |back| ==> back[i].id != x.id
    ensures RemoveId(front + ([x] + back), x.id) == front + back
  {
    var id := x.id;
    RemoveIdAbsent(front, id);
    RemoveIdAbsent(back, id);
    assert RemoveId([x], id) == [] by {
      assert [x][1..] == [];
      assert RemoveId([x], id) == [] + RemoveId([], id);
    }
    RemoveIdConcat([x], back, id);
    assert RemoveId([x] + back, id) == back;
    RemoveIdConcat(front, [x] + back, id);
  }

  /** With unique keys, the filter removes exactly the one item with the key. */
  lemma RemoveIdUnique(items: seq<Itinerary>, k: int)
    requires UniqueIds(items) && 0 <= k < |items|
    ensures RemoveId(items, items[k].id) == items[..k] + items[k + 1..]
  {
    var front, back := items[..k], items[k + 1..];
    OthersHaveOtherIds(items, k, front, back);
    RemoveIdSplit(front, items[k], back);
    SplitAround(items, k);
  }

  /** Filtering by key and filtering by owner commute. */
  lemma {:induction false} RemoveIdOwnedCommute(rows: seq<Itinerary>, id: Id, user: Id)
    ensures RemoveId(ItineraryController.Owned(rows, user), id) == ItineraryController.Owned(RemoveId(rows, id), user)
  {
    if rows != [] {
      RemoveIdOwnedCommute(rows[1..], id, user);
      var head := if rows[0].userId == user then [rows[0]] else [];
      RemoveIdConcat(head, ItineraryController.Owned(rows[1..], user), id);
      var kept := if rows[0].id != id then [rows[0]] else [];
      ItineraryController.OwnedConcat(kept, RemoveId(rows[1..], id), user);
      assert RemoveId(head, id) == ItineraryController.Owned(kept, user) by {
        if head != [] { assert head[1..] == []; }
        if kept != [] { assert kept[1..] == []; }
      }
    }
  }

  /**
   * The list stays in step with the server: when the page shows the
   * caller's itineraries and the server deletes one of them, the local
   * filter leaves exactly the caller's itineraries that remain on the server.
   */
  lemma DeleteKeepsListInSync(s: State, rows: seq<Itinerary>, caller: Id, id: Id)
    requires UniqueIds(rows) && s.items == ItineraryController.Owned(rows, caller)
    requires ItineraryController.FindOwned(rows, id, caller).Some?
    ensures HandleDelete(s, id, true).items
         == ItineraryController.Owned(ItineraryController.Delete(rows, caller, id, None).rows, caller)
  {
    var k := ItineraryController.FindOwned(rows, id, caller).value;
    RemoveIdUnique(rows, k);
    RemoveIdOwnedCommute(rows, id, caller);
  }

  /**
   * Loading from the list handler shows exactly the caller's rows, and a
   * later delete of one of them keeps the page in step with the server.
   */
  lemma LoadThenDeleteInSync(s: State, rows: seq<Itinerary>, caller: Id, id: Id)
    requires UniqueIds(rows) && ItineraryController.FindOwned(rows, id, caller).Some?
    ensures var loaded := LoadItineraries(s, Loaded(ItineraryController.GetAll(rows, caller, None).response.body.items));
            && loaded.items == ItineraryController.Owned(rows, caller)
            && !loaded.loading
            && HandleDelete(loaded, id, true).items
               == ItineraryController.Owned(ItineraryController.Delete(rows, caller, id, None).rows, caller)
  {
    var loaded := LoadItineraries(s, Loaded(ItineraryController.GetAll(rows, caller, None).response.body.items));
    DeleteKeepsListInSync(loaded, rows, caller, id);
  }
}
