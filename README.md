# User registry of the bearer-token user-list service

The service keeps its users in a module-level array of `{id, name}` records,
seeded with three users at start-up. A login looks a user up by name and
issues a token carrying that user's id. The JWT strategy's verify callback
looks the token's id up again to admit a request. Three protected handlers
change the array in place:

- `POST /users` pushes a fixed record.
- `PUT /users/:id` renames the first record with that id.
- `DELETE /users/:id` splices out the first record with that id.

Every handler ends in one response: 200 with the list (or with the token),
401 "Invalid credentials", or 404 "User not found".

This project models that registry and those decisions, and proves what they
promise.

- `wrappers.dfy` (module `Wrappers`): the `Option` type.
- `registry.dfy` (module `Registry`): records, the seed list, the
  front-to-back scan that `find` and `findIndex` make (`FirstIndex`), and the
  list each mutating handler leaves behind (`Appended`, `Renamed`,
  `Removed`). Its lemmas are about ids across those mutations.
- `auth.dfy` (module `Auth`): the token payload and the verify callback.
- `handlers.dfy` (module `Handlers`): the responses, the login handler, and
  the class `UserStore`. The class holds the shared list as a `seq` field,
  and its `Post`, `Put` and `Delete` methods reassign that field.
  `ExampleSession` is a verified client. It logs in as "Amir", renames id 2,
  deletes id 2 twice, and renames id NaN.

Inputs the handlers receive from outside are parameters:

- A route id is already parsed. `None` stands for `parseInt` giving NaN,
  which equals no id.
- A body's `name` is `Text(s)`, or `Missing` when the field is absent
  (JavaScript's `undefined`). A rename stores `Missing` as given. A login
  without a name then matches such a record, exactly as `===` does.
- A token is its verified payload, `Token(id)`.

The append pushes the hard-coded record `{id: 4, name: "Jane"}` (app.js:97),
not a record with a generated id, so a second append duplicates id 4. The
lemmas `AppendDistinctIff`, `SecondAppendDuplicatesId` and
`DuplicateIdResolvesToOtherRecord` state what that does: the first append
keeps ids distinct only when no record holds id 4, and a second append always
creates two records with id 4. After two appends and a rename of id 4, a
"Jane" token then resolves to the renamed record.

## Model

| member | source | states |
|---|---|---|
| Registry.FirstIndex | app.js:116 | the scan yields the position of the first record the key matches, and None exactly when no record matches |
| Registry.Appended | app.js:96-99 | the list after POST is one longer; its last record is (4, "Jane"); every earlier record is unchanged and in the same place |
| Registry.Renamed | app.js:102-112 | None (404) exactly when no record has the id, NaN included; otherwise only the first record with the id has its name replaced, and length, order, ids and all other records are unchanged |
| Registry.Removed | app.js:114-122 | None (404) exactly when no record has the id; otherwise exactly the first record with the id is removed, the length drops by one and the rest keep their relative order |
| Registry.SeedHasDistinctIds | app.js:55-59 | the seeded ids are pairwise distinct and none of them is the append id 4 |
| Registry.AppendDistinctIff | app.js:97-98 | on a list with distinct ids, an append keeps the ids distinct if and only if no record already has id 4 |
| Registry.AppendAddsOccurrence | app.js:97-98 | every append adds exactly one more record with id 4 |
| Registry.SecondAppendDuplicatesId | app.js:96-99 | two appends always leave duplicate ids: two more records with id 4 than before |
| Registry.RenameKeepsIds | app.js:105-108 | a successful rename keeps the length and every record's id, so it keeps distinct ids distinct |
| Registry.RemoveKeepsDistinctIds | app.js:116-120 | a successful removal keeps distinct ids distinct |
| Registry.RemoveTakesOneOccurrence | app.js:116-120 | removing a present id succeeds and lowers that id's number of records by exactly one |
| Registry.OccurrencesZeroIff | app.js:116-118 | an id has zero records exactly when the lookup finds no record with it, which is the 404 case |
| Registry.RemoveTwice | app.js:115-119 | removing an id that exactly one record holds succeeds (200), and repeating the removal finds nothing (404) |
| Auth.Authenticate | app.js:42-50 | admits exactly when some record has the payload's id, and yields the first such record; otherwise rejects |
| Handlers.Login | app.js:61-73 | issues a token exactly when some record has exactly the given name, carrying the id of the first such record; otherwise 401 |
| Handlers.LoginThenAuthenticate | app.js:63-66 | a token from a successful login is admitted by the verify callback with the same id; with distinct ids it resolves to a record with the login name |
| Handlers.DuplicateIdResolvesToOtherRecord | app.js:97-107 | after two appends and a rename of id 4, the "Jane" login issues id 4 and the callback resolves id 4 to the renamed record |
| Handlers.Response.Status | app.js:61-122 | a response is 200 exactly for the list or the token, 401 for invalid credentials, 404 for an unknown user |
| Handlers.UserStore.constructor | app.js:55-59 | the list starts as the three seeded records, with distinct ids |
| Handlers.UserStore.Post | app.js:96-100 | the list becomes its append, and the response is 200 with the new list |
| Handlers.UserStore.Put | app.js:102-112 | 404 with the list untouched when no record has the id; otherwise the list becomes its rename, and the response is 200 with it |
| Handlers.UserStore.Delete | app.js:114-122 | 404 with the list untouched when no record has the id; otherwise the list becomes its removal, and the response is 200 with it |

## Left out

- Express routing, body parsing and response sending: only the response values are modelled.
- Passport wiring and bearer-header extraction: the protected handlers are modelled as what runs after admission. The verify callback is modelled on its own.
- Token signing, signature checking and the one-hour expiry happen inside the token library. A token is modelled as its verified payload id.
- `parseInt` string-to-number rules: the route id is taken already parsed, with NaN as `None`.
- JSON values other than a string or an absent field in a body's `name` (numbers, null, objects).
- Record identity: records are values. The record object the verify callback attaches to the request is not tracked once the list changes.
- `GET /users`, `GET /hello` and `GET /data`: they do not change the list. `GET /data` is an outbound HTTP call.
- winston logging, dotenv configuration, the catch-all 500 handler and the listening port: I/O.
