# In-memory user store of the demo REST API

The Django REST Framework app `demo_rest_api` keeps its users in a
module-level Python list, `data_list`. The list starts with three sample
records. Two views read and change it. `DemoRestApi` serves the collection:
GET lists the active users and POST creates one. `DemoRestApiItem` serves one
record by id: GET (which ignores the id and lists the active users), PUT
(replace), PATCH (partial update) and DELETE (logical delete, which clears
`is_active`). Records are never removed.

The model has four modules:

- `Users` (users.dfy) holds the values. `User` is a record, `Body` a request
  body whose absent keys are `None`, and `Outcome` the response status
  (201 `Created`, 200 `Ok`, 400 `BadRequest`, 404 `NotFound`). `Json` is
  the set of JSON values the model lets `is_active` hold. This module also
  has the two pure computations: `ActiveUsers` (the filter on
  `is_active == True`) and `Find` (the first record with a given id). It
  also has the store invariant `WellFormed` and the sample data `Seed`.
- `Operations` (operations.dfy) gives, for each write handler, a pure
  function from the store before the request to a `Step`. A `Step` is the
  outcome plus the store after the request.
- `Views` (views.dfy) has the class `UserStore`. Its field `users: seq<User>`
  is `data_list`. Its methods are the view handlers. They update the record
  that `GetItemById` finds one field at a time, as the Python does. Each one
  is proved to produce exactly the `Step` of its function in `Operations` and
  to keep `Valid()`.
- `Properties` (properties.dfy) proves what the handlers promise, as lemmas
  about those functions.

`GetItemById` returns an index and not a record. The Python returns a
reference into `data_list` and then mutates that dict in place, so an index
into the sequence is the faithful counterpart.

`is_active` holds any `Json` value, not only a boolean. PUT and PATCH copy the
client's value verbatim. The listing keeps a record when Python's
`value == True` holds, which is true for the boolean true and also for the
number 1 (`IsTrue`). `is_active` is not validated: PUT and PATCH store
whatever value the client sends, and the model does the same. PATCH writes
`name` before it checks `email`, so a refused PATCH can keep the new name
(`PartialUpdateNotAtomic`).

A `Body` stands for a Python dict, so its extra keys never include `id`,
`name`, `email` or `is_active` (`KeysApart`); POST requires this of its
body, and the store invariant keeps it for every stored record.

## Model

| member | source | states |
|---|---|---|
| `Users.ActiveUsers` | demo_rest_api/views.py:47 | every listed record's `is_active` equals True; the listing is no longer than the store |
| `Users.Find` | demo_rest_api/views.py:86-93 | the result is the position of the FIRST record with the given id; none is returned iff no record has that id |
| `Views.UserStore.constructor` | demo_rest_api/views.py:11-37 | the store starts as the three sample records (User01 and User02 active, User03 inactive) and is well formed when the three ids are distinct and non-empty |
| `Views.UserStore.Get` | demo_rest_api/views.py:43-48 | answers with the active records in store order and changes nothing |
| `Views.UserStore.Post` | demo_rest_api/views.py:50-80 | the answer and the new store are exactly those of `Create`; the invariant (non-empty fields, no extra key shadowing a named field, unique ids) is kept |
| `Views.UserStore.GetItemById` | demo_rest_api/views.py:86-93 | the scan returns the position of the first record with the id, or none when no record has it; agrees with `Find` |
| `Views.UserStore.GetItem` | demo_rest_api/views.py:95-102 | ignores the id and answers with the same active listing as the collection GET |
| `Views.UserStore.Put` | demo_rest_api/views.py:104-142 | the answer and the new store are exactly those of `Replace`; the invariant is kept |
| `Views.UserStore.Patch` | demo_rest_api/views.py:144-181 | the answer and the new store, including a half-applied update, are exactly those of `PartialUpdate`; the invariant is kept |
| `Views.UserStore.Delete` | demo_rest_api/views.py:183-200 | the answer and the new store are exactly those of `LogicalDelete`; the invariant is kept |
| `Properties.ActiveUsersMembers` | demo_rest_api/views.py:47 | a record is listed iff it is in the store and its `is_active` equals True |
| `Properties.ActiveUsersAppend` | demo_rest_api/views.py:47 | the filter keeps store order: the listing of `a + b` is the listing of `a` followed by that of `b` |
| `Properties.ActiveUsersAround` | demo_rest_api/views.py:47 | the listing of a store is the listing before position i, then record i if it is active, then the listing after it |
| `Properties.FindKeepsPosition` | demo_rest_api/views.py:86-93 | a write that keeps every id in place (PUT, PATCH and DELETE never touch `id`) leaves the lookup result unchanged |
| `Properties.FindUnique` | demo_rest_api/views.py:86-93 | in a store with unique ids, the record at position i is the one found for its id |
| `Properties.CreateRefuses` | demo_rest_api/views.py:57-69 | POST answers bad-request iff name or email is absent or empty, and then the store is unchanged; otherwise it answers created |
| `Properties.CreateAppends` | demo_rest_api/views.py:71-74 | a valid POST appends exactly one record at the end and keeps every earlier record; the record has the new id, the body's name, email and extra keys, and `is_active` true whatever was sent; the listing gains it at the end |
| `Properties.CreateThenFind` | demo_rest_api/views.py:72-74 | with an unused id, a lookup of the new id finds the appended record |
| `Properties.CreateKeepsWellFormed` | demo_rest_api/views.py:57-74 | POST with a non-empty unused id keeps every field non-empty, keeps extra keys apart from the named fields, and keeps every id unique |
| `Properties.ReplaceChecksBodyFirst` | demo_rest_api/views.py:111-130 | PUT answers bad-request iff the body is invalid, whatever the id; not-found iff the body is valid and the id is unknown; both leave the store unchanged |
| `Properties.ReplaceOverwrites` | demo_rest_api/views.py:132-137 | a successful PUT sets name and email from the body and `is_active` to the value sent or true; it keeps the id and extra keys; every other record and the length are unchanged and the record is still found |
| `Properties.ReplaceKeepsWellFormed` | demo_rest_api/views.py:111-137 | PUT keeps every field non-empty, keeps extra keys apart from the named fields, and keeps every id unique |
| `Properties.PartialUpdateLooksUpFirst` | demo_rest_api/views.py:151-156 | PATCH on an unknown id answers not-found whatever the body, and changes nothing |
| `Properties.PartialUpdateRefuses` | demo_rest_api/views.py:158-173 | PATCH answers bad-request iff the id is known and a name or email is present and empty; it succeeds iff the id is known and neither is; a refused PATCH leaves the store unchanged (in particular for an empty name, or an empty email with no name sent), except that a non-empty name sent with an empty email stays written |
| `Properties.PartialUpdateApplies` | demo_rest_api/views.py:158-176 | a successful PATCH takes each present field from the body, `is_active` verbatim; it keeps absent fields, the id and extra keys; every other record and the length are unchanged |
| `Properties.PartialUpdateNotAtomic` | demo_rest_api/views.py:159-173 | with a non-empty name and an empty email, PATCH answers bad-request but the new name has already been written; the store differs from the old one when the name changed |
| `Properties.PartialUpdateKeepsWellFormed` | demo_rest_api/views.py:151-176 | PATCH, finished or stopped half way, keeps every field non-empty, keeps extra keys apart from the named fields, and keeps every id unique |
| `Properties.LogicalDeleteUnknown` | demo_rest_api/views.py:187-192 | DELETE of an unknown id answers not-found and changes nothing |
| `Properties.LogicalDeleteMarks` | demo_rest_api/views.py:187-195 | DELETE of a known id sets only that record's `is_active` to false; the record stays at its place and is still found, and the length is unchanged |
| `Properties.LogicalDeleteUnlists` | demo_rest_api/views.py:194-195 | after DELETE the listing is the old listing of the records before and after the deleted one |
| `Properties.LogicalDeleteHides` | demo_rest_api/views.py:188-195 | in a store with unique ids, no listed record has the deleted id after DELETE |
| `Properties.LogicalDeleteKeepsWellFormed` | demo_rest_api/views.py:188-195 | DELETE keeps every field non-empty, keeps extra keys apart from the named fields, and keeps every id unique |
| `Properties.SeedState` | demo_rest_api/views.py:14-37 | the sample store is well formed and lists exactly its first two records |
| `Properties.Lifecycle` | demo_rest_api/views.py:43-200 | starting from the sample store: users A and B are listed; after creating D the listing is A, B, D; after deleting A it is B, D |

## Left out

- The framework: the `APIView` base class, `Response` objects, parsing
  `request.data` and URL routing. Responses are the `Outcome` datatype.
- The message strings of the responses. This includes the two different
  400 messages for a missing key and for an empty value. Both become
  `BadRequest`.
- `uuid.uuid4()`: each new id is a parameter. It must be non-empty and not
  already used, which a random uuid4 meets only with high probability. The
  constructor takes the three sample ids the same way.
- Python truthiness in general. `name` and `email` are strings, and
  "empty" means absent or `""`. A non-string name or email (a number, a
  list, null) is not modelled.
- `Json` covers null, booleans, integers and strings. Floats, arrays and
  objects are not modelled. So the Python fact that `1.0 == True` does not
  appear in `IsTrue`.
- A client `id` key in a POST body is overwritten by the new id, so `Body`
  does not carry it. Every other extra key a POST stores is kept in
  `extra`. PUT and PATCH never read or change `extra`.
- Aliasing of returned records. A 200 or 201 answer carries a copy of the
  record as it was at that moment. In the Python it is the live dict that
  later requests may still change.
- Concurrency: the list is shared with no locking. The model treats
  requests as running one after another.
- The unused `render` import.
