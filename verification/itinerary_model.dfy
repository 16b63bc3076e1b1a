/**
 * The Itineraries table (server/models/Itinerary.js): the record shape,
 * the non-null attributes and the defaults the ORM applies when a row is
 * built from a request body, and what an update writes. The model declares
 * no `location` attribute, so a `location` in the body is not stored.
 */
module ItineraryModel {
  import opened Js

  /** A primary key (a UUID in the database). */
  type Id = string

  /**
   * An activity's `day`: a number when the client appends an activity, the
   * input's text after the day field is edited.
   */
  datatype Day = DayNumber(n: int) | DayText(s: string)

  /** One entry of the `activities` JSON list. */
  datatype Activity = Activity(day: Day, name: string, time: string, description: Option<string>)

  /**
   * A row of the Itineraries table. Dates and the decimal budget are kept as
   * the text the client sent. The two JSON columns may hold SQL `NULL`
   * (`None`): neither is declared `allowNull: false`.
   */
  datatype Itinerary = Itinerary(
    id: Id,
    userId: Id,
    title: string,
    startDate: string,
    endDate: string,
    budget: string,
    activities: Option<seq<Activity>>,
    weatherData: Option<map<string, string>>)

  /**
   * A request body, property by property. The ORM tells absent from `null`:
   * a default replaces only an absent property, while `null` is a value
   * that is stored, or refused by a not-null check.
   */
  datatype Fields = Fields(
    id: Prop<Id>,
    userId: Prop<Id>,
    title: Prop<string>,
    startDate: Prop<string>,
    endDate: Prop<string>,
    budget: Prop<string>,
    location: Prop<string>,
    activities: Prop<seq<Activity>>,
    weatherData: Prop<map<string, string>>)

  /** The attributes declared `allowNull: false`, in declaration order. */
  const NonNullNames := ["userId", "title", "startDate", "endDate", "budget"]

  /**
   * The names of the non-null attributes `f` does not supply, absent or
   * `null` alike, in declaration order: what a build refuses.
   */
  function MissingRequired(f: Fields): (names: seq<string>)
    ensures names == [] <==>
              f.userId.Given? && f.title.Given? && f.startDate.Given? && f.endDate.Given? && f.budget.Given?
    ensures forall n :: n in names ==> n in NonNullNames
  {
    (if !f.userId.Given? then ["userId"] else [])
    + (if !f.title.Given? then ["title"] else [])
    + (if !f.startDate.Given? then ["startDate"] else [])
    + (if !f.endDate.Given? then ["endDate"] else [])
    + (if !f.budget.Given? then ["budget"] else [])
  }

  /**
   * The names of the non-null attributes `f` sets to `null`, in declaration
   * order: what an update refuses (an absent property is simply not written).
   */
  function NulledRequired(f: Fields): (names: seq<string>)
    ensures names == [] <==>
              !f.userId.Null? && !f.title.Null? && !f.startDate.Null? && !f.endDate.Null? && !f.budget.Null?
    ensures forall n :: n in names ==> n in NonNullNames
  {
    (if f.userId.Null? then ["userId"] else [])
    + (if f.title.Null? then ["title"] else [])
    + (if f.startDate.Null? then ["startDate"] else [])
    + (if f.endDate.Null? then ["endDate"] else [])
    + (if f.budget.Null? then ["budget"] else [])
  }

  /** A nullable column as written from a property: absent takes the default, `null` stores `NULL`. */
  function Column<T>(p: Prop<T>, default: T): Option<T>
  {
    match p
    case Absent => Some(default)
    case Null => None
    case Given(v) => Some(v)
  }

  /**
   * The result of building or updating a row: the row, the ORM's not-null
   * violation with the attributes at fault, or a `null` primary key, which
   * the insert refuses.
   */
  datatype Built = Row(row: Itinerary) | NullViolation(fields: seq<string>) | NullKey

  /**
   * Builds a row from `f` as the ORM does: an absent `id` takes the freshly
   * drawn `freshId`, `activities` defaults to the empty list and
   * `weatherData` to the empty object; a `null` JSON property is stored as
   * `NULL`; `location` is dropped.
   */
  function Build(f: Fields, freshId: Id): (b: Built)
    ensures b.NullViolation? <==> MissingRequired(f) != []
    ensures b.NullViolation? ==> b.fields == MissingRequired(f)
    ensures b.NullKey? <==> MissingRequired(f) == [] && f.id.Null?
    ensures b.Row? ==>
              && b.row.id == (if f.id.Given? then f.id.value else freshId)
              && Given(b.row.userId) == f.userId
              && Given(b.row.title) == f.title
              && Given(b.row.startDate) == f.startDate
              && Given(b.row.endDate) == f.endDate
              && Given(b.row.budget) == f.budget
    ensures b.Row? ==>
              && (f.activities.Absent? ==> b.row.activities == Some([]))
              && (f.activities.Null? ==> b.row.activities == None)
              && (f.activities.Given? ==> b.row.activities == Some(f.activities.value))
              && (f.weatherData.Absent? ==> b.row.weatherData == Some(map[]))
              && (f.weatherData.Null? ==> b.row.weatherData == None)
              && (f.weatherData.Given? ==> b.row.weatherData == Some(f.weatherData.value))
  {
    if MissingRequired(f) != [] then NullViolation(MissingRequired(f))
    else if f.id.Null? then NullKey
    else Row(Itinerary(
      if f.id.Given? then f.id.value else freshId,
      f.userId.value, f.title.value, f.startDate.value, f.endDate.value, f.budget.value,
      Column(f.activities, []),
      Column(f.weatherData, map[])))
  }

  /** `location` plays no part in the row that is built. */
  lemma BuildIgnoresLocation(f: Fields, location: Prop<string>, freshId: Id)
    ensures Build(f.(location := location), freshId) == Build(f, freshId)
  {
  }

  /** `p` written over the non-null value `before` gives `after`; `null` is never written. */
  predicate Overwrites<T(==)>(p: Prop<T>, before: T, after: T)
  {
    match p
    case Absent => after == before
    case Null => false
    case Given(v) => after == v
  }

  /** `p` written over the nullable value `before` gives `after`. */
  predicate OverwritesNullable<T(==)>(p: Prop<T>, before: Option<T>, after: Option<T>)
  {
    match p
    case Absent => after == before
    case Null => after == None
    case Given(v) => after == Some(v)
  }

  /**
   * `instance.update(body)`: every attribute present in `f` overwrites the
   * row's value (`activities` wholesale), and a `null` for a non-null
   * attribute is refused; the primary key, once set, cannot be changed, and
   * `location` is not an attribute.
   */
  function ApplyPatch(row: Itinerary, f: Fields): (b: Built)
    ensures !b.NullKey?
    ensures b.NullViolation? <==> NulledRequired(f) != []
    ensures b.NullViolation? ==> b.fields == NulledRequired(f)
    ensures b.Row? ==>
              && b.row.id == row.id
              && Overwrites(f.userId, row.userId, b.row.userId)
              && Overwrites(f.title, row.title, b.row.title)
              && Overwrites(f.startDate, row.startDate, b.row.startDate)
              && Overwrites(f.endDate, row.endDate, b.row.endDate)
              && Overwrites(f.budget, row.budget, b.row.budget)
              && OverwritesNullable(f.activities, row.activities, b.row.activities)
              && OverwritesNullable(f.weatherData, row.weatherData, b.row.weatherData)
  {
    if NulledRequired(f) != [] then NullViolation(NulledRequired(f))
    else Row(Itinerary(
      row.id,
      if f.userId.Given? then f.userId.value else row.userId,
      if f.title.Given? then f.title.value else row.title,
      if f.startDate.Given? then f.startDate.value else row.startDate,
      if f.endDate.Given? then f.endDate.value else row.endDate,
      if f.budget.Given? then f.budget.value else row.budget,
      if f.activities.Absent? then row.activities else Column(f.activities, []),
      if f.weatherData.Absent? then row.weatherData else Column(f.weatherData, map[])))
  }

  /** The body of no properties. */
  const NoFields: Fields := Fields(Absent, Absent, Absent, Absent, Absent, Absent, Absent, Absent, Absent)

  /** A patch with no attributes leaves the row as it was. */
  lemma EmptyPatchIsIdentity(row: Itinerary, location: Prop<string>)
    ensures ApplyPatch(row, NoFields.(location := location)) == Row(row)
  {
  }

  /** Sending the same body twice has the effect of sending it once. */
  lemma PatchIsIdempotent(row: Itinerary, f: Fields)
    requires ApplyPatch(row, f).Row?
    ensures ApplyPatch(ApplyPatch(row, f).row, f) == ApplyPatch(row, f)
  {
  }

  /**
   * A row built from a body already holds every value of that body: the
   * same body sent again as an update changes nothing.
   */
  lemma PatchAfterBuildIsIdentity(f: Fields, freshId: Id)
    requires Build(f, freshId).Row?
    ensures ApplyPatch(Build(f, freshId).row, f) == Build(f, freshId)
  {
  }

  /** A sequence is its part before `k`, its element at `k`, and its part after `k`. */
  lemma SplitAround<T>(s: seq<T>, k: int)
    requires 0 <= k < |s|
    ensures s[..k] + ([s[k]] + s[k + 1..]) == s
  {
  }

  /** `id` is the primary key. */
  predicate UniqueIds(rows: seq<Itinerary>)
  {
    forall i, j :: 0 <= i < j < |rows| ==> rows[i].id != rows[j].id
  }
}
