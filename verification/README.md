# User directory view — Dafny model

A model of the view-state bookkeeping of `AppComponent` in
`src/app/app.component.ts`, a small Angular front-end that lists "user"
records (id, name, email, mobile, creation time) held by a remote REST
service and lets a person add, edit and delete them through a modal form.

The component's state is an immutable record

    State(users, isModalOpen, isUpdate, selectedUser, form)

and each component method is a pure transition over it. Every HTTP call is
split in two: the request the method builds (`AddUserRequest`,
`UpdateUserRequest`, `OnSubmit` return a `Request`), and the subscribe
callback, which takes the server's response as a parameter
(`OnUsersLoaded`, `OnUserCreated`, `OnUserUpdated`, `OnUserDeleted`).

Modules:

- `Wrappers` (`wrappers.dfy`): `Option`, for the nullable form values and
  the selected record.
- `Users` (`users.dfy`): the `User` record; the newest-first order;
  `findIndex` and `filter` by id.
- `Recency` (`recency.dfy`): the sort used by `sortUsers` and `loadUsers`.
  It is modelled as a stable insertion sort with the newest-first comparator,
  because `Array.prototype.sort` is stable (section 23.1.3.30 of ECMA-262).
  The model proves that the sort returns a permutation, that the result is
  newest first and that it is stable. It also proves that the stable
  newest-first arrangement is unique, so `SortByRecency(s)` is the only list
  with both properties.
- `Forms` (`forms.dfy`): the three form controls and their validators.
  This includes the mobile pattern `^[0-9]{10}$` as a character-by-character
  matcher.
- `Component` (`component.dfy`): the state, the transitions and the
  requests.
- `Workflow` (`workflow.dfy`): properties of several transitions together.
  These are the edit round trip, the invariant that the list stays newest
  first, where a created record lands, and the load-then-create example.

Modelling choices:

- `createdAt` is an integer standing for `new Date(createdAt).getTime()`.
  The current time that `addUser` reads with `new Date()` is the parameter
  `now`.
- A form control's value is `Option<string>`. `initForm` starts every
  control at `Some("")`. `reset()` sets every control to `None`, which
  stands for Angular's `null`.
- `Validators.required` fails on `null` and on the empty string.
  `Validators.pattern` and `Validators.email` accept those empty values, so
  only `required` rejects them.
- Angular's e-mail regular expression is the parameter
  `isEmail: string -> bool`.
- `selectedUser` starts as `undefined` and is modelled as `None`.
- `closeModal` leaves `isUpdate` and `selectedUser` as they were, as the
  source does.
- The modal closes in the create and update response callbacks, not when
  the form is submitted, so `OnSubmit` changes no state.
- The update callback replaces only the first record whose id matches the
  returned record. A response whose id is not in the list adds nothing.

## Model

| member | source | states |
|---|---|---|
| Users.FindIndex | src/app/app.component.ts:76 | the result is -1 exactly when no record carries the id; otherwise it is the first index that carries it |
| Users.WithoutId | src/app/app.component.ts:89 | the kept records are exactly those whose id differs, each with its original multiplicity; no record with the id remains |
| Users.WithoutIdKeepsOrder | src/app/app.component.ts:89 | filtering a newest-first list keeps it newest first |
| Recency.Insert | src/app/app.component.ts:94-98 | one insertion step adds exactly the inserted record to the list's multiset |
| Recency.InsertKeepsOrder | src/app/app.component.ts:94-98 | inserting into a newest-first list keeps it newest first |
| Recency.SortByRecency | src/app/app.component.ts:94-98 | the result is a permutation of the input, with `createdAt` non-increasing from front to back |
| Recency.SortIsStable | src/app/app.component.ts:94-98 | for every timestamp, the records carrying it appear in the same relative order before and after the sort |
| Recency.StableOrderIsUnique | src/app/app.component.ts:94-98 | two newest-first lists that agree on every timestamp's records are equal |
| Recency.SortIsTheStableOrder | src/app/app.component.ts:33-36 | a list is the sort's result if and only if it is newest first and keeps the input order within each timestamp |
| Recency.SortKeepsSortedList | src/app/app.component.ts:94-98 | re-sorting an already newest-first list changes nothing |
| Recency.UnshiftThenSortIsInsert | src/app/app.component.ts:66-68 | putting a record in front of a newest-first list and sorting is one insertion step |
| Forms.FromUser | src/app/app.component.ts:45-49 | the form gets all three fields present; replacing a record's name, email and mobile with the form's values gives the record back unchanged |
| Forms.DigitRunMatchesDigits | src/app/app.component.ts:28 | `^[0-9]{n}$` matches a string if and only if it has length n and every character is an ASCII digit |
| Forms.MobileValidIff | src/app/app.component.ts:28 | the mobile control is valid if and only if its value is present and is exactly ten digits; an empty or reset value is invalid |
| Forms.ValidFormFields | src/app/app.component.ts:24-29 | a form is valid if and only if every field is present, the name and email are non-empty, the email is accepted by the email rule, and the mobile is ten digits |
| Forms.EmptyFormsAreInvalid | src/app/app.component.ts:24-29 | neither the form that `initForm` builds nor a reset form is valid |
| Forms.TenDigitsAccepted | src/app/app.component.ts:28 | `"1234567890"` passes the mobile control |
| Forms.OtherMobilesRefused | src/app/app.component.ts:28 | `"12345"`, `"12345678901"`, `"12a4567890"`, `""` and a reset value fail the mobile control |
| Component.Init | src/app/app.component.ts:11-29 | the initial state has no records, a closed modal, create mode, no selection, and a form that no email rule can make valid |
| Component.OnUsersLoaded | src/app/app.component.ts:32-37 | the list becomes the server's records as a newest-first permutation; nothing else changes |
| Component.OpenModal | src/app/app.component.ts:40-55 | the modal opens with the list untouched; edit mode holds exactly when a record is given; the selection is that record, or null; the form holds the record's fields, or is cleared |
| Component.CloseModal | src/app/app.component.ts:100-103 | the modal closes and the form is cleared; the list, the mode and the selection are unchanged |
| Component.AddUserRequest | src/app/app.component.ts:63-65 | the create request carries the form's three values and the supplied current time |
| Component.UpdateUserRequest | src/app/app.component.ts:72-75 | an update is sent exactly when a record is selected; it goes to that record's id and carries the form's values with the record's own `createdAt` |
| Component.OnSubmit | src/app/app.component.ts:57-61 | an invalid form sends nothing; a valid form sends a create if and only if not in edit mode, and an update if and only if in edit mode with a selection; the update's `createdAt` is the selected record's, never the clock's; any request carries present fields and a ten-digit mobile |
| Component.OnUserCreated | src/app/app.component.ts:63-69 | the list grows by exactly the returned record, is newest first and contains it; the modal is closed and the form cleared; nothing else changes |
| Component.ReplaceFirst | src/app/app.component.ts:76-79 | if no record matches, the list is unchanged; otherwise only the first matching index is overwritten, with the returned record; records with other ids keep their multiplicity |
| Component.OnUserUpdated | src/app/app.component.ts:75-81 | the length is unchanged and the list is newest first. With a match, the first matching record is swapped for the returned one; without a match, the records are unchanged. Other ids are untouched and the modal closes |
| Component.OnUserDeleted | src/app/app.component.ts:87-91 | no record with the id remains; every record with another id stays, as often as before; the list is newest first; the modal and form are untouched |
| Workflow.RunsKeepNewestFirst | src/app/app.component.ts:32-103 | from a newest-first list, every sequence of loads, opens, closes and create/update/delete responses leaves the list newest first |
| Workflow.EditRoundTrip | src/app/app.component.ts:40-75 | opening a valid record and submitting it unchanged sends an update that rebuilds exactly that record, including its original `createdAt` |
| Workflow.CreateSendsForm | src/app/app.component.ts:57-69 | in create mode, a valid form is sent as it stands, stamped with the current time and without an id |
| Workflow.ClosedModalSendsNothing | src/app/app.component.ts:100-103 | after a close, or after a create or update response is applied, submitting sends nothing |
| Workflow.InsertPosition | src/app/app.component.ts:94-98 | an insertion splices the record in after the strictly newer records and before the rest |
| Workflow.CreatedLandsAheadOfPeers | src/app/app.component.ts:66-68 | on a newest-first list, the created record is spliced in behind the strictly newer records and ahead of all others, including records with the same timestamp |
| Workflow.DeleteKeepsOrder | src/app/app.component.ts:87-91 | on a newest-first list, the delete callback's result is exactly the filtered list |
| Workflow.UnknownUpdateChangesNoRecord | src/app/app.component.ts:75-81 | on a newest-first list, an update response whose id is not present leaves the list exactly as it was |
| Workflow.NewestCreatedGoesFirst | src/app/app.component.ts:66-68 | on a newest-first list, a created record at least as new as every listed one goes to the front and the rest keep their order |
| Workflow.LoadScenario | src/app/app.component.ts:32-37 | loading record 1 (older) and record 2 (newer) shows `[2, 1]` |
| Workflow.LoadThenCreateScenario | src/app/app.component.ts:63-69 | after that load, a created record 3 (newest) shows `[3, 2, 1]` with the modal closed |

## Left out

- `src/app/user.service.ts`: five one-line pass-throughs to Angular's `HttpClient`. They have no logic, so server responses are parameters of the callbacks.
- The `deleteUser` request: it sends only the id, so only its callback (`OnUserDeleted`) is modelled.
- Observable subscription and asynchrony: each callback is a synchronous transition applied to the response, and any arrival order of responses is a `Workflow.ApplyAll` event sequence. Nothing links a request to the response the server returns for it: responses are arbitrary parameters.
- HTTP failures: the source does not handle them, and the model invents no error path for them.
- Angular change detection and the template: typing into the form is modelled as replacing `form` in the state (`s.(form := f)`).
- ISO-8601 parsing, `toISOString()` and the clock: timestamps are integers and the current time is a parameter. Malformed dates, for which the comparator returns `NaN`, are not modelled.
- `Validators.email`'s regular expression is Angular library code outside this repository, so it is the parameter `isEmail`.
- `getUserById` is never called by the component.
