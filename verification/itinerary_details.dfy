/**
 * The itinerary detail page (client/src/pages/ItineraryDetails.jsx): the
 * noon-UTC forecast filter, the cap on places, and the edits the page makes
 * to its draft copy of the itinerary.
 */
module ItineraryDetails {
  import opened Js
  import opened ItineraryModel

  // ---------------------------------------------------------------------
  // Forecast and places
  // ---------------------------------------------------------------------

  /**
   * One entry of the forecast list: its time `dt` in whole seconds since the
   * epoch, and the rest of the entry as the page receives it.
   */
  datatype Entry = Entry(dt: int, payload: map<string, string>)

  /** The largest absolute time value, in milliseconds, a `Date` can hold. */
  const MaxTimeMs := 8_640_000_000_000_000

  /**
   * `new Date(dt * 1000).getUTCHours() === 12`. Outside the representable
   * range the date is invalid and its hour is `NaN`. The hour is
   * floor(ms / 3600000) modulo 24, which for whole seconds is
   * floor(dt / 3600) modulo 24; Dafny's `/` and `%` with a positive divisor
   * are exactly floor division and the non-negative remainder.
   */
  function IsNoonUtc(dt: int): (r: bool)
    ensures r <==> -MaxTimeMs <= dt * 1000 <= MaxTimeMs && 43200 <= dt % 86400 < 46800
  {
    NoonHourIsNoonWindow(dt);
    -MaxTimeMs <= dt * 1000 <= MaxTimeMs && (dt / 3600) % 24 == 12
  }

  /** Hour 12 of the UTC day is the second-of-day window [43200, 46800). */
  lemma NoonHourIsNoonWindow(dt: int)
    ensures (dt / 3600) % 24 == 12 <==> 43200 <= dt % 86400 < 46800
  {
  }

  /** `list.filter(noon)`: the entries in UTC hour 12, in their original order. */
  function NoonOnly(list: seq<Entry>): (r: seq<Entry>)
    ensures forall x :: x in r <==> x in list && IsNoonUtc(x.dt)
    ensures |r| <= |list|
  {
    if list == [] then []
    else (if IsNoonUtc(list[0].dt) then [list[0]] else []) + NoonOnly(list[1..])
  }

  /** The filter distributes over concatenation, so it keeps the relative order of entries. */
  lemma {:induction false} NoonOnlyConcat(a: seq<Entry>, b: seq<Entry>)
    ensures NoonOnly(a + b) == NoonOnly(a) + NoonOnly(b)
  {
    if a == [] {
      assert a + b == b;
    } else {
      assert (a + b)[0] == a[0];
      assert (a + b)[1..] == a[1..] + b;
      NoonOnlyConcat(a[1..], b);
    }
  }

  /** `s.slice(0, n)`. */
  function Take<T>(s: seq<T>, n: nat): (r: seq<T>)
    ensures |r| == if |s| < n then |s| else n
    ensures forall i :: 0 <= i < |r| ==> r[i] == s[i]
  {
    if |s| < n then s else s[..n]
  }

  /** The forecast the page shows: the first five noon entries, in order. */
  function Forecast(list: seq<Entry>): (r: seq<Entry>)
    ensures |r| <= 5
    ensures |r| == if |NoonOnly(list)| < 5 then |NoonOnly(list)| else 5
    ensures forall i :: 0 <= i < |r| ==> r[i] == NoonOnly(list)[i]
    ensures forall x :: x in r ==> x in list && IsNoonUtc(x.dt)
    ensures |r| < 5 ==> r == NoonOnly(list)
  {
    Take(NoonOnly(list), 5)
  }

  /**
   * Entries after the fifth noon entry play no part: once a prefix already
   * holds five noon entries, the forecast is decided by that prefix.
   */
  lemma ForecastDecidedByPrefix(list: seq<Entry>, k: int)
    requires 0 <= k <= |list| && |NoonOnly(list[..k])| >= 5
    ensures Forecast(list) == Forecast(list[..k])
  {
    assert list == list[..k] + list[k..];
    NoonOnlyConcat(list[..k], list[k..]);
  }

  /** A noon entry appended to a list with fewer than five noon entries shows up last. */
  lemma ForecastAppendsNoon(list: seq<Entry>, e: Entry)
    requires IsNoonUtc(e.dt) && |NoonOnly(list)| < 5
    ensures Forecast(list + [e]) == Forecast(list) + [e]
  {
    NoonOnlyConcat(list, [e]);
    assert NoonOnly([e]) == [e] by {
      assert [e][1..] == [];
    }
  }

  /** `results.slice(0, 5)`: the first min(5, n) places, in order. */
  function TopPlaces<T>(results: seq<T>): (r: seq<T>)
    ensures |r| == if |results| < 5 then |results| else 5
    ensures forall i :: 0 <= i < |r| ==> r[i] == results[i]
  {
    Take(results, 5)
  }

  // ---------------------------------------------------------------------
  // The draft
  // ---------------------------------------------------------------------

  /** The page's text inputs, by their `name` attribute. */
  datatype TopField = Title | StartDate | EndDate | Location | Budget

  /**
   * `editedItinerary`: the text properties (a name missing from `top` is
   * `undefined`, as `location` is for a row the server sent) and the
   * activities.
   */
  datatype Draft = Draft(top: map<TopField, string>, activities: seq<Activity>)

  /** The properties of an activity the page edits. */
  datatype ActivityField = DayField | NameField | TimeField | DescriptionField

  /** `{ ...activity, [field]: value }`: the inputs deliver text, so an edited day becomes text. */
  function SetField(a: Activity, f: ActivityField, v: string): (r: Activity)
    ensures f != DayField ==> r.day == a.day
    ensures f != NameField ==> r.name == a.name
    ensures f != TimeField ==> r.time == a.time
    ensures f != DescriptionField ==> r.description == a.description
  {
    match f
    case DayField => a.(day := DayText(v))
    case NameField => a.(name := v)
    case TimeField => a.(time := v)
    case DescriptionField => a.(description := Some(v))
  }

  /** The last write to a property wins; writes to different properties commute. */
  lemma SetFieldAlgebra(a: Activity, f: ActivityField, g: ActivityField, v: string, w: string)
    ensures SetField(SetField(a, f, v), f, w) == SetField(a, f, w)
    ensures f != g ==> SetField(SetField(a, f, v), g, w) == SetField(SetField(a, g, w), f, v)
  {
  }

  /** `handleInputChange`: sets one text property and nothing else. */
  function HandleInputChange(d: Draft, name: TopField, value: string): (r: Draft)
    ensures name in r.top && r.top[name] == value
    ensures r.top.Keys == d.top.Keys + {name}
    ensures forall n :: n in d.top && n != name ==> r.top[n] == d.top[n]
    ensures r.activities == d.activities
  {
    d.(top := d.top[name := value])
  }

  /**
   * `handleActivityChange(index, field, value)`: changes one property of the
   * activity at `index`; the length of the list, the other activities and
   * the text properties stay as they were.
   */
  function HandleActivityChange(d: Draft, index: int, f: ActivityField, v: string): (r: Draft)
    requires 0 <= index < |d.activities|
    ensures |r.activities| == |d.activities|
    ensures forall j :: 0 <= j < |d.activities| && j != index ==> r.activities[j] == d.activities[j]
    ensures r.activities[index] == SetField(d.activities[index], f, v)
    ensures r.top == d.top
  {
    d.(activities := d.activities[index := SetField(d.activities[index], f, v)])
  }

  /** The activity `handleAddActivity` appends to a list of `n` activities. */
  function BlankActivity(n: nat): Activity
  {
    Activity(DayNumber(n + 1), "", "", Some(""))
  }

  /** `handleAddActivity`: appends one blank activity numbered after the last. */
  function HandleAddActivity(d: Draft): (r: Draft)
    ensures |r.activities| == |d.activities| + 1
    ensures r.activities[..|d.activities|] == d.activities
    ensures var a := r.activities[|d.activities|];
            a.day == DayNumber(|d.activities| + 1) && a.name == "" && a.time == "" && a.description == Some("")
    ensures r.top == d.top
  {
    d.(activities := d.activities + [BlankActivity(|d.activities|)])
  }

  /**
   * `list.filter((_, i) => i !== index)` over the part of the list that
   * starts at position `from`: it removes exactly the element at `index`,
   * or nothing when `index` is out of range.
   */
  function DropIndex(s: seq<Activity>, index: int, from: nat): (r: seq<Activity>)
    ensures from <= index < from + |s| ==> r == s[..index - from] + s[index - from + 1..]
    ensures !(from <= index < from + |s|) ==> r == s
  {
    if s == [] then []
    else
      var rest := DropIndex(s[1..], index, from + 1);
      assert from < index < from + |s| ==>
               [s[0]] + (s[1..][..index - from - 1] + s[1..][index - from..]) == s[..index - from] + s[index - from + 1..];
      assert !(from <= index < from + |s|) ==> [s[0]] + s[1..] == s;
      (if from == index then [] else [s[0]]) + rest
  }

  /** `handleRemoveActivity(index)`. */
  function HandleRemoveActivity(d: Draft, index: int): (r: Draft)
    ensures 0 <= index < |d.activities| ==>
              r.activities == d.activities[..index] + d.activities[index + 1..]
    ensures !(0 <= index < |d.activities|) ==> r.activities == d.activities
    ensures r.top == d.top
  {
    d.(activities := DropIndex(d.activities, index, 0))
  }

  /** Removing the activity just added gives back the draft as it was. */
  lemma AddThenRemoveIsIdentity(d: Draft)
    ensures HandleRemoveActivity(HandleAddActivity(d), |d.activities|) == d
  {
    var added := HandleAddActivity(d).activities;
    assert added[..|d.activities|] + added[|d.activities| + 1..] == d.activities;
  }

  /** The page state `handleEditToggle` touches: the saved itinerary, the draft, the mode. */
  datatype Editing = Editing(saved: Option<Draft>, draft: Option<Draft>, isEditing: bool)

  /** `handleEditToggle`: flips the mode and resets the draft to the saved itinerary. */
  function HandleEditToggle(s: Editing): (r: Editing)
    ensures r.isEditing != s.isEditing
    ensures r.draft == s.saved && r.saved == s.saved
  {
    Editing(s.saved, s.saved, !s.isEditing)
  }

  /**
   * Cancelling discards every edit: whatever edits were made to the draft
   * after entering edit mode, toggling again restores the saved itinerary
   * and the viewing mode.
   */
  lemma CancelDiscardsEdits(s: Editing, edited: Draft)
    requires !s.isEditing
    ensures var editing := HandleEditToggle(s).(draft := Some(edited));
            HandleEditToggle(editing) == Editing(s.saved, s.saved, false)
  {
  }
}
