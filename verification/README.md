# WanderQuest — a verified model of its decision logic

WanderQuest is a travel-itinerary web application. A React client lets a
user register, sign in, and create, edit, list and delete trip itineraries.
An Express server stores users and itineraries through Sequelize and issues
session tokens. This project models in Dafny the parts of both sides that
make decisions:

- **Client validators.** The e-mail and password regular expressions,
  `getPasswordRequirements` and the generic `validateForm` rule aggregator.
  Also the validation and submit paths of the register page, the login page
  and the older routed login page.
- **Error classification.** The client's `parseApiError`, and the
  server's `errorHandler`, an error middleware that server/server.js does
  not mount.
- **Tables and handlers.**
  - The Users table, with the auth handlers `register`, `login` and
    `getProfile`.
  - The Itineraries table, with the itinerary handlers: list, create,
    update and delete, each scoped to the caller.
- **Client state updates.**
  - On the itinerary detail page: the noon-UTC forecast filter, the cap on
    places, and the draft edits.
  - On the list page: loading, and deleting by id.
- **Image fallbacks.** The placeholder URL, the `handleImageError` handler,
  and the `ImageWithFallback` component's two-flag state machine.

One module per source file:

- `Js` holds the JavaScript conventions the others share: `undefined`/`null`
  as `None`, truthiness, the `a || b` fallback, and the outcome of an
  awaited call.
- `Text` holds the character classes behind `\s`, `String.prototype.trim`,
  and string length counted in UTF-16 code units.

Tables are sequences of rows. A `findOne` is the first matching row.

## Modelling choices

- **Library code as parameters.**
  - `Primitives` holds `bcrypt.hash`, `bcrypt.compare`, `jwt.sign` and the
    ORM's `isEmail` as function values.
  - The one fact the proofs assume about them is `UserModel.Sound`: a
    password matches every hash of itself.
  - `encodeURIComponent` and URL resolution against the document base are
    function parameters too.
- **Database failures.** Each handler takes a `fault` parameter that stands
  for any exception the database raises.
- **Promise outcomes.** An awaited call that the model cannot see becomes a
  `Settled` value, `Resolved` or `Rejected(reason)`, or a plain flag. A
  rejection reason is an `ErrorUtils.Reason`: `null` or `undefined`, on
  which any property access throws; a falsy primitive, whose properties
  all read as `undefined`; or an error object.
- **Regular expressions.** Each is a predicate that mirrors the pattern: a
  split of the string for the e-mail pattern, lookaheads for the password
  pattern. A separate lemma characterises each one in plain terms.
- **Password length.** The password length is JavaScript's `length`, i.e.
  UTF-16 code units. A character above U+FFFF counts twice.
- **Two inconsistencies are reproduced rather than reconciled.**
  - A duplicate e-mail is answered 400 by `register` but would be answered
    409 by the error middleware, were it mounted; server/server.js does
    not mount it, so the 409 is never sent
    (`AuthController.DuplicateEmailStatusesDisagree`).
  - The Itinerary model declares no `location` attribute, so a `location` in
    a request body is never stored (`ItineraryModel.BuildIgnoresLocation`).
- **Absent versus `null`.** Where the code treats `undefined` and `null`
  alike, both are `None`. Where they lead to different outcomes, a
  property is a `Prop`: `Absent`, `Null` or `Given(v)`.
  - In an itinerary body, a default replaces only an absent property. A
    `null` JSON column (`activities`, `weatherData`) is stored as `NULL`. A
    `null` non-null attribute is refused with 400, by create and by update
    alike.
  - In `login`, an absent e-mail makes the lookup throw (500). A `null`
    e-mail finds no row (401).
- **What the handlers check.**
  - Create checks only the non-null attributes. It does not check for a
    non-empty title, dates, a numeric budget or a location.
  - A created row's title, dates, budget and activities come back in the
    caller's list. No `location` does.
  - The forecast keeps entries whose UTC hour is exactly 12. It does not
    pick the slot nearest local noon.
  - The routes define no `GET /api/itineraries/:id`, so the detail page's
    fetch has no server handler. The detail page is modelled from the point
    where it holds an itinerary.

## Model

| member | source | states |
|---|---|---|
| Validation.ValidateEmail | client/src/utils/validation.utils.js:2-5 | `validateEmail` accepts exactly the strings with no whitespace, exactly one '@', a non-empty part before it, and after it a '.' that is neither first nor last |
| Validation.ValidateEmailCharacterization | client/src/utils/validation.utils.js:3-4 | the e-mail pattern, as atom '@' atom '.' atom, accepts exactly the strings with no whitespace, exactly one '@', a non-empty part before it, and after it a '.' that is neither first nor last |
| Validation.PatternGivesShape | client/src/utils/validation.utils.js:3-4 | every string the pattern accepts has that shape |
| Validation.ShapeGivesPattern | client/src/utils/validation.utils.js:3-4 | every string of that shape is accepted by the pattern |
| Validation.TwoAtsCountTwice | client/src/utils/validation.utils.js:3 | two '@' at distinct positions make the string's '@' count at least two, the step that rules out a second '@' |
| Validation.ValidatePassword | client/src/utils/validation.utils.js:8-12 | `validatePassword` accepts exactly the strings of at least 8 UTF-16 units, with no line terminator, holding a lower-case letter, an upper-case letter and a digit |
| Validation.PasswordRequirements | client/src/utils/validation.utils.js:15-17 | the fixed sentence "Password must be at least 8 characters with 1 uppercase, 1 lowercase, and 1 number" |
| Validation.ValidatePasswordCharacterization | client/src/utils/validation.utils.js:10-11 | the password pattern, as three lookaheads and `.{8,}`, accepts exactly the strings of at least 8 UTF-16 units, with no line terminator, holding a lower-case letter, an upper-case letter and a digit |
| RegisterPage.RequirementsMatchMessage | client/src/utils/validation.utils.js:15-17 | `getPasswordRequirements` is the fixed sentence, the same one the register page shows for an invalid password |
| Validation.ApplyRulesLastFailure | client/src/utils/validation.utils.js:27-35 | a field's rule loop leaves no entry when every rule passes and creates one when any fails; the last failing rule's message wins |
| Validation.ValidateForm | client/src/utils/validation.utils.js:20-39 | result keys are fields of `rules`; a field has an entry iff one of its rules fails; the entry is the last failing rule's message (`"<field> is required"` when a required rule has no message) |
| Text.Trim | client/src/pages/Login.jsx:31 | trim removes exactly the leading and trailing whitespace: the result is a slice with whitespace-only margins, empty iff the input is all whitespace, otherwise starting and ending with non-whitespace |
| Text.Utf16Length | client/src/utils/validation.utils.js:10 | a string's JavaScript length lies between its character count and twice it |
| RegisterPage.Validate | client/src/pages/auth/Register.jsx:28-47 | email, password and confirmPassword errors are each recorded iff their own check fails, with the fixed messages; validation passes iff none is |
| RegisterPage.HandleSubmit | client/src/pages/auth/Register.jsx:49-66 | `register` is called iff validation passes; a rejection sets the form error to `parseApiError(err).message`; loading ends after every call |
| LoginPage.Validate | client/src/pages/auth/Login.jsx:16-26 | "Invalid email address" iff the e-mail pattern fails, "Password is required" iff the password is empty; passes iff no error |
| LoginPage.HandleSubmit | client/src/pages/auth/Login.jsx:28-41 | `login` is called iff validation passes; a rejection with an error object sets the form error to `err.message` or "Failed to login", a falsy primitive to "Failed to login", and a `null` or `undefined` one throws and leaves the errors as they were; loading ends after every call |
| LegacyLoginPage.HandleChange | client/src/pages/Login.jsx:17-23 | only the named field of the form data changes |
| LegacyLoginPage.FailureMessage | client/src/pages/Login.jsx:53-57 | the error shown is `data.error`, else `data.message`, else the fixed retry sentence |
| LegacyLoginPage.HandleSubmit | client/src/pages/Login.jsx:25-61 | the e-mail is trimmed and the password used verbatim; an empty one stops with "Email and password are required" and no call; the previous error is cleared; a rejection with an error object shows FailureMessage, a falsy primitive the retry sentence, and a `null` or `undefined` one throws and shows nothing; loading ends on every path |
| LegacyLoginPage.BlankEmailIsMissing | client/src/pages/Login.jsx:31-39 | an e-mail of only whitespace counts as missing |
| ErrorUtils.ParseApiError | client/src/utils/error.utils.js:38-97 | falsy error gives UNKNOWN with the default; the network marker wins over any response; 401, 400, >= 500 and other statuses map to their kinds and messages; without a response the error's own message or the default; never AUTHORIZATION, never an empty message |
| ErrorHandler.UpstreamIgnoresOrmFields | server/middleware/errorHandler.js:5-10 | an upstream error's answer depends only on its `response` |
| ErrorHandler.OtherErrorsIgnoreResponse | server/middleware/errorHandler.js:13-30 | no other error's answer depends on a `response` it carries |
| ErrorHandler.ValidationReportsEachInnerError | server/middleware/errorHandler.js:13-18 | a validation answer reports every inner error's message and only those |
| ErrorHandler.Handle | server/middleware/errorHandler.js:1-31 | upstream errors first (their status or 500, `data.message` or the default); validation errors 400 with the inner messages in order; unique-constraint errors 409; otherwise `err.status` or 500 with `err.message` or the default |
| UserModel.ValidatePassword | server/models/User.js:35-37 | the stored hash accepts every password it is a hash of, given a sound hash and compare |
| UserModel.NewUserAcceptsItsPassword | server/models/User.js:35-37 | a user created from the hash of a password accepts that password |
| UserModel.FindFirst | server/controllers/authController.js:39 | the single-row query returns a row of the table satisfying the condition, and nothing iff no row does |
| UserModel.FindFirstPastMisses | server/controllers/authController.js:64-66 | rows failing the condition, placed before the rest, do not change what the lookup returns |
| UserModel.FindByEmail | server/controllers/authController.js:39 | the lookup returns a row with that e-mail, and nothing iff no row has it |
| UserModel.FindById | server/controllers/authController.js:64-66 | the lookup by key returns a row with that key, and nothing iff no row has it |
| UserModel.FindByEmailUnique | server/models/User.js:12-19 | with unique e-mails, the lookup finds exactly the row holding the address |
| AuthController.Register | server/controllers/authController.js:6-32 | 201 iff password and valid e-mail are present, no fault and no clash; the stored row holds the hash and the token carries the new id with 24h lifetime; 400 "Email already exists" iff the same holds except that the e-mail or the fresh key is taken; every other failure (absent password or e-mail, an e-mail the validator rejects, a fault) 500 "Server error"; failures add no row |
| AuthController.Login | server/controllers/authController.js:34-60 | the table never changes; an absent e-mail or a fault gives 500; a `null` e-mail, an unknown e-mail and a known e-mail with a wrong password all give 401 "Invalid credentials"; a known e-mail with an absent password gives 500; 200 iff the e-mail is known and the hash comparison succeeds, with a token for the matched user's id |
| AuthController.GetProfile | server/controllers/authController.js:62-72 | the caller's id, e-mail and preferences without the password, or null when no row has the id; 500 on a fault |
| AuthController.RegisterPreservesValid | server/models/User.js:7-27 | registering keeps unique keys, unique e-mails and validated e-mails |
| AuthController.RegisterThenLogin | server/controllers/authController.js:11-55 | logging in with just-registered credentials succeeds with a token for the new id |
| AuthController.RegisterThenProfile | server/controllers/authController.js:62-72 | after a successful registration, the profile under the new id is the submitted e-mail with empty preferences and no password |
| AuthController.LoginFailureIsUniform | server/controllers/authController.js:39-48 | an unknown e-mail, a `null` e-mail and a wrong password get identical responses |
| AuthController.DuplicateEmailStatusesDisagree | server/controllers/authController.js:27-28 | a duplicate e-mail gets 400 from `register`, while the error middleware, which server/server.js does not mount, would map the same error to 409 |
| ItineraryModel.MissingRequired | server/models/Itinerary.js:13-36 | names exactly the non-null attributes a body leaves absent or sets to `null`, in declaration order |
| ItineraryModel.NulledRequired | server/models/Itinerary.js:13-36 | names exactly the non-null attributes a body sets to `null`, in declaration order |
| ItineraryModel.Build | server/models/Itinerary.js:6-45 | a not-null violation naming the missing attributes iff one of userId, title, dates or budget is absent or `null`; otherwise a `null` key is refused; otherwise the row holds the body's values, the supplied key or a fresh one, `activities` [] and `weatherData` {} when absent, `NULL` when sent as `null` |
| ItineraryModel.BuildIgnoresLocation | server/models/Itinerary.js:6-45 | the built row does not depend on `location` |
| ItineraryModel.EmptyPatchIsIdentity | server/controllers/itineraryController.js:37 | an update body with no attributes leaves the row unchanged |
| ItineraryModel.ApplyPatch | server/controllers/itineraryController.js:37 | a body setting a non-null attribute to `null` is refused with those names; otherwise the key stays, each given attribute overwrites, a `null` JSON column becomes `NULL`, and absent attributes keep their values |
| ItineraryModel.PatchIsIdempotent | server/controllers/itineraryController.js:37 | sending the same update body twice has the effect of sending it once |
| ItineraryModel.PatchAfterBuildIsIdentity | server/controllers/itineraryController.js:15-37 | a row created from a body is unchanged by an update with the same body |
| ItineraryController.Owned | server/controllers/itineraryController.js:6-8 | the user's list holds exactly the rows whose owner is that user |
| ItineraryController.OwnedConcat | server/controllers/itineraryController.js:6-8 | the owner filter keeps table order |
| ItineraryController.FindOwned | server/controllers/itineraryController.js:29-31 | finds a row matching both key and owner, and nothing iff none does |
| ItineraryController.GetAll | server/controllers/itineraryController.js:4-13 | 200 with exactly the caller's rows, or 400 with the fault's message |
| ItineraryController.Create | server/controllers/itineraryController.js:15-25 | 201 iff title, dates and budget are given, the key is not `null`, there is no fault and the key is free; the appended row belongs to the caller whatever the body says, with the body's values, the defaults for absent JSON columns and `NULL` for `null` ones; otherwise 400 with the not-null names, the null key, the fault's message or the duplicate key, in that order, and no change |
| ItineraryController.Update | server/controllers/itineraryController.js:27-42 | a fault gives 400 with its message; 404 "Itinerary not found" iff no row has the key and the caller as owner; 200 iff there is no fault, the row is found and the body sets no non-null attribute to `null` (otherwise 400 naming them); only a 200 changes the table, and then only that row, as the patch writes it |
| ItineraryController.Delete | server/controllers/itineraryController.js:44-59 | a fault gives 400 with its message; 404 iff no row has the key and the caller as owner; 200 "Itinerary deleted" iff there is no fault and the row is found, and then exactly that row is removed; otherwise no change |
| ItineraryController.CreatePreservesUniqueIds | server/models/Itinerary.js:8-12 | create keeps the primary key unique |
| ItineraryController.UpdatePreservesUniqueIds | server/models/Itinerary.js:8-12 | update keeps the primary key unique |
| ItineraryController.DeletePreservesUniqueIds | server/models/Itinerary.js:8-12 | delete keeps the primary key unique |
| ItineraryController.DeleteTwiceNotFound | server/controllers/itineraryController.js:44-59 | with unique keys, deleting one of the caller's rows succeeds and a second delete of the same key answers 404 |
| ItineraryController.CreateThenList | server/controllers/itineraryController.js:4-25 | a body with title, dates, budget and a free non-null key is created (201), and the caller's list then holds a row with the submitted title, dates, budget and activities |
| ItineraryController.UpdateReplacesActivities | server/controllers/itineraryController.js:37 | an update of the caller's row whose body carries activities and no `null` non-null attribute succeeds and stores exactly that list, without merging |
| ItineraryController.CreateIsolatesOwners | server/controllers/itineraryController.js:15-25 | a create by one user leaves every other user's list unchanged |
| ItineraryController.OwnedSkipsForeign | server/controllers/itineraryController.js:4-13 | a row owned by someone else contributes nothing to a user's list, wherever it sits |
| ItineraryController.DeleteIsolatesOwners | server/controllers/itineraryController.js:44-59 | a delete by one user leaves every other user's list unchanged |
| ItineraryController.ReplaceOwnRowIsolates | server/controllers/itineraryController.js:27-42 | replacing one of the caller's rows by another of the caller's rows leaves other users' lists unchanged |
| ItineraryController.UpdateCanReassignOwner | server/controllers/itineraryController.js:37 | as written, an owner's update with another `userId` moves the row from the owner's list into the other user's |
| ItineraryController.UpdateKeepingOwner | server/controllers/itineraryController.js:27-42 | the update with the body's `userId` ignored: the same 400 and 404 cases, 200 iff the row is found with no fault and no `null` non-null attribute besides `userId`, and the updated row keeps the caller as owner and its key |
| ItineraryController.UpdateKeepingOwnerIsolates | server/controllers/itineraryController.js:27-42 | with the owner kept, an update leaves every other user's list unchanged |
| ItineraryDetails.IsNoonUtc | client/src/pages/ItineraryDetails.jsx:38-39 | an entry counts as noon iff its time is a valid `Date` and its second of the UTC day lies in [43200, 46800) |
| ItineraryDetails.NoonHourIsNoonWindow | client/src/pages/ItineraryDetails.jsx:39 | UTC hour 12 is exactly the second-of-day window [43200, 46800), for times before 1970 too |
| ItineraryDetails.NoonOnly | client/src/pages/ItineraryDetails.jsx:37-40 | keeps exactly the entries whose time falls in UTC hour 12 |
| ItineraryDetails.NoonOnlyConcat | client/src/pages/ItineraryDetails.jsx:37-40 | the filter keeps the original order |
| ItineraryDetails.Take | client/src/pages/ItineraryDetails.jsx:41 | a prefix of length min(n, size) |
| ItineraryDetails.Forecast | client/src/pages/ItineraryDetails.jsx:36-41 | the first min(5, n) of the n noon entries of the list, in their order |
| ItineraryDetails.ForecastDecidedByPrefix | client/src/pages/ItineraryDetails.jsx:36-41 | entries after the fifth noon entry do not affect the forecast |
| ItineraryDetails.ForecastAppendsNoon | client/src/pages/ItineraryDetails.jsx:36-41 | below the cap, a new noon entry is appended last |
| ItineraryDetails.TopPlaces | client/src/pages/ItineraryDetails.jsx:48 | the first min(5, n) results, in order |
| ItineraryDetails.SetField | client/src/pages/ItineraryDetails.jsx:72-75 | setting one activity property leaves the other three unchanged |
| ItineraryDetails.SetFieldAlgebra | client/src/pages/ItineraryDetails.jsx:72-75 | the last write to a property wins; writes to different properties commute |
| ItineraryDetails.HandleInputChange | client/src/pages/ItineraryDetails.jsx:62-68 | sets one text property; every other property and the activities stay |
| ItineraryDetails.HandleActivityChange | client/src/pages/ItineraryDetails.jsx:70-80 | changes one property of one activity; length, other activities and text properties stay |
| ItineraryDetails.HandleAddActivity | client/src/pages/ItineraryDetails.jsx:82-95 | appends exactly one blank activity with day = old length + 1 and empty name, time and description; earlier activities stay |
| ItineraryDetails.DropIndex | client/src/pages/ItineraryDetails.jsx:100 | the index filter removes exactly the element at the index, keeping the rest in order, or nothing when the index is out of range |
| ItineraryDetails.HandleRemoveActivity | client/src/pages/ItineraryDetails.jsx:97-102 | removes the activity at the index and keeps the others in order; an out-of-range index changes nothing |
| ItineraryDetails.AddThenRemoveIsIdentity | client/src/pages/ItineraryDetails.jsx:82-102 | removing the activity just added restores the draft |
| ItineraryDetails.HandleEditToggle | client/src/pages/ItineraryDetails.jsx:57-60 | flips the mode and resets the draft to the saved itinerary |
| ItineraryDetails.CancelDiscardsEdits | client/src/pages/ItineraryDetails.jsx:57-60 | entering edit mode, editing, and cancelling restores the saved itinerary and viewing mode |
| ItinerariesPage.LoadItineraries | client/src/pages/Itineraries.jsx:16-25 | the data replaces the list, or "Failed to load itineraries" is shown with the list kept; loading ends either way |
| ItinerariesPage.RemoveId | client/src/pages/Itineraries.jsx:30 | the filter keeps exactly the items whose key differs from the deleted one |
| ItinerariesPage.RemoveIdConcat | client/src/pages/Itineraries.jsx:30 | the remaining items keep their relative order |
| ItinerariesPage.HandleDelete | client/src/pages/Itineraries.jsx:27-34 | after a confirmed delete the list is filtered by key; after a failure it is unchanged and "Failed to delete itinerary" is shown |
| ItinerariesPage.RemoveIdUnique | client/src/pages/Itineraries.jsx:30 | with unique keys the filter removes exactly one item |
| ItinerariesPage.RemoveIdOwnedCommute | client/src/pages/Itineraries.jsx:30 | filtering by key and filtering by owner commute |
| ItinerariesPage.DeleteKeepsListInSync | client/src/pages/Itineraries.jsx:27-34 | after a server-side delete, the page's filtered list equals the caller's remaining rows on the server |
| ItinerariesPage.LoadThenDeleteInSync | client/src/pages/Itineraries.jsx:16-34 | loading from the list handler shows exactly the caller's rows and ends loading, and a later delete keeps the page list equal to the caller's rows on the server |
| ImageUtils.DecimalString | client/src/utils/image.utils.js:9 | a number renders as a non-empty digit string without leading zeros |
| ImageUtils.DecimalRoundTrip | client/src/utils/image.utils.js:9 | reading the rendered digits back gives the number |
| ImageUtils.PlaceholderUrl | client/src/utils/image.utils.js:8-10 | the URL starts with the placeholder host |
| ImageUtils.PlaceholderUrlDetermines | client/src/utils/image.utils.js:8-10 | equal placeholder URLs come from equal widths, heights (defaults 400 and 300) and encoded texts (default 'Image') |
| ImageUtils.HandleImageError | client/src/utils/image.utils.js:18-30 | a falsy fallback, or a source that reads back equal to the fallback, gives the placeholder and detaches the handler; otherwise the fallback is written and the handler stays |
| ImageUtils.AbsoluteFallbackDetaches | client/src/utils/image.utils.js:18-30 | when the fallback URL reads back as itself, the handler is detached after at most two errors |
| ImageUtils.RelativeFallbackNeverDetaches | client/src/utils/image.utils.js:22 | as written, a fallback URL that reads back differently is never recognised, so the handler stays attached after any number of errors |
| ImageUtils.RelativeFallbackLoops | client/src/utils/image.utils.js:22-29 | a concrete relative fallback still has the handler after three errors |
| ImageUtils.HandleImageErrorFixed | client/src/utils/image.utils.js:18-30 | the handler comparing resolved URLs: a falsy fallback or a source resolving like the fallback gives the placeholder and detaches |
| ImageUtils.FixedHandlerDetaches | client/src/utils/image.utils.js:18-30 | with the corrected comparison, every element is detached after at most two errors, whatever URL resolution does |
| ImageUtils.DetachedShowsPlaceholder | client/src/utils/image.utils.js:23-24 | once detached, the element shows the placeholder for the entity |
| ImageWithFallback.HandleError | client/src/components/common/ImageWithFallback.jsx:14-22 | keeps "fallbackError implies error"; flags are never reset; the first error sets `error`, later ones `fallbackError` |
| ImageWithFallback.PlaceholderText | client/src/components/common/ImageWithFallback.jsx:29 | `placeholderText`, else `alt`, else 'Image unavailable'; never empty |
| ImageWithFallback.Render | client/src/components/common/ImageWithFallback.jsx:24-43 | the placeholder iff `fallbackError` or both sources are absent; otherwise the img shows `fallbackSrc` after an error and `src` before |
| ImageWithFallback.AfterErrors | client/src/components/common/ImageWithFallback.jsx:11-22 | every reachable flag state satisfies "fallbackError implies error" |
| ImageWithFallback.ErrorSequence | client/src/components/common/ImageWithFallback.jsx:11-24 | no flags initially, `error` after one error, both from the second on, when the placeholder shows |
| ImageWithFallback.InitialShowsSource | client/src/components/common/ImageWithFallback.jsx:11-12 | initially the img shows `src` |
| ImageWithFallback.FirstErrorShowsFallback | client/src/components/common/ImageWithFallback.jsx:15-17 | after the first error the img shows `fallbackSrc` |

## Left out

- **Network and I/O.** HTTP transport, Express routing, the auth
  middleware, the weather and places controllers, the client services, and
  the axios interceptors are not part of this model. Their outcomes enter as
  parameters.
- **Async ordering and navigation.** The await ordering in the detail page's
  `loadItineraryData` and `handleSave`, the detail page's own delete, and
  `navigate` calls are left out. Navigation is kept only as a flag in the
  submit models.
- **Crypto and ORM internals.** bcrypt, JWT signing and expiry, the ORM's
  `isEmail` validator and UUID generation are uninterpreted. A fresh key is
  a parameter.
- **Type coercion.** The column types are not modelled: DATE and DECIMAL
  coercion and rejection, and JSONB. Dates and budget are kept as text, and
  a value the database rejects counts as a `fault`.
- **Row order.** `findAll` returns rows in table order. The database
  promises no order.
- **Timestamps.** Users rows (`timestamps: true`, server/models/User.js:30)
  and Itineraries rows (the ORM's default) carry `createdAt` and
  `updatedAt`. They are not modelled, so the profile and the itinerary
  bodies here omit them.
- **Browser state.** localStorage, the auth context and the `hooks/useAuth`
  module the auth pages import are not part of this model.
- LegacyLoginPage.HandleSubmit: the model takes the outcome of `login` as a
  parameter, so its success branch and FailureMessage's `data.error` and
  `data.message` branches are modelled as the page reads them. In the app
  they are never reached. `/login` routes to this page
  (client/src/App.jsx:5,17), and the page calls the auth context's
  `login(email, password)` (client/src/context/AuthContext.jsx:33) with a
  single credentials object (client/src/pages/Login.jsx:49). The server
  then receives no password and every submit is rejected. The context
  rethrows a plain string (client/src/context/AuthContext.jsx:41), so the
  page always shows "Invalid email or password. Please try again." The
  evident intent is `login(email, password)`.
- **Excluded modules.** The server-side express-validator rules are a
  separate library and are not modelled.
- ItineraryDetails.HandleActivityChange: requires an index inside the
  activity list. The page only passes indices of rendered activities.
  Any index outside 0..length-1 is not modelled.
- ItineraryDetails.IsNoonUtc: forecast times are whole seconds. A
  fractional `dt` is not modelled.
- ImageUtils.PlaceholderUrl: `None` stands for an omitted (`undefined`)
  argument, which takes the default. A `null` argument would not take the
  default and is not modelled. Width and height are natural numbers, so
  negative and fractional sizes are not modelled.
- ImageUtils.PlaceholderUrlDetermines: the encoded text is compared after
  encoding. `encodeURIComponent` is kept abstract and is not proved
  injective.
- ErrorUtils.ParseApiError: a response always carries a body object. A
  response without `data` would throw, and that case is not modelled.
- ItineraryController.Create: the 201 branch holds for a table without a
  `location` column. The migration
  (server/migrations/20231201000001-create-itineraries.js:27-30) declares
  `location` NOT NULL, and the ORM model never writes it, so under that
  schema every insert fails in the database and is answered 400. That
  failure is an instance of `fault`; the model does not fix a schema.
- ItineraryController.CreateThenList: holds only for a table whose schema
  accepts a row without `location`, as for Create above.
- ItineraryModel.Build: a `null` key is refused, by the ORM's validator or
  by the database; the error message is not modelled (`NullPrimaryKey`).
- AuthController.Register: any unique-constraint violation, including a
  clash of the freshly drawn key, is answered like a duplicate e-mail, as
  the handler does. Key clashes are assumed possible, not improbable.

## Findings

| source | as written | input that shows it | evidently intended | confidence | as-written member | corrected member |
|---|---|---|---|---|---|---|
| server/controllers/itineraryController.js:37 | `itinerary.update(req.body)` applies every attribute in the body, `userId` included | owner "alice" sends `PUT /api/itineraries/trip-1` with body `{userId: "bob"}`; the row leaves alice's list and appears in bob's | as in `createItinerary` (line 19), the body cannot choose the owner; the row stays the caller's and no other user's list changes | medium, not executed | ItineraryController.UpdateCanReassignOwner | ItineraryController.UpdateKeepingOwner |
| client/src/utils/image.utils.js:22 | `element.src === fallbackUrl` compares the resolved URL that `src` reads back with the raw fallback string | page at https://wanderquest.app; src https://cdn.example.com/paris.jpg fails; fallback "/images/fallback.png" also fails; every error rewrites the fallback and the handler is never detached | "already tried the fallback" is judged on resolved URLs, so the second error shows the placeholder and detaches | medium, not executed | ImageUtils.RelativeFallbackNeverDetaches | ImageUtils.HandleImageErrorFixed |
