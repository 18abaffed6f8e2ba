# To-do list data layer, modelled in Dafny

This project models the data layer of a browser to-do list: the task
service (`src/tasks.js`) and the persistent store beneath it
(`src/storage.js`).

- The **store** is one `localStorage` slot under the key `"tasks"` holding
  the whole task list as JSON. `loadTasks` is tolerant: an absent, empty,
  unreadable or unparseable slot, or one that does not hold an array, reads
  as the empty list, and loading never throws. `saveTasks` overwrites the
  slot and turns a `QuotaExceededError` into `Error("Storage quota
  exceeded")`; any other failure is rethrown unchanged.
- The **task service** validates descriptions (a string whose trimmed form
  has 1 to 500 UTF-16 code units), appends new tasks while the raw stored
  list has fewer than 100 entries, lists the well-typed records newest
  first, and toggles or deletes the first raw entry with a given id. Every
  mutation loads the whole list, changes it and saves the whole list back.

Files:

- `json.dfy` (module `Json`): the JSON values the layer handles,
  `undefined`, property reads, `typeof`, truthiness, and thrown errors.
- `js_string.dfy` (module `JsString`): `String.prototype.trim` over
  ECMAScript's whitespace set, and `length` in UTF-16 code units.
- `storage.dfy` (module `Storage`): the slot, `LoadTasks`, and the class
  `Store` whose `Save` method overwrites its `slot` field.
- `tasks.dfy` (module `Tasks`): validation, the listing (filter and a
  stable sort newest first), the search loop `FindTask`, the step functions
  `AddStep`, `ToggleStep` and `DeleteStep` on the raw list, the methods
  `AddTask`, `ToggleTask` and `DeleteTask` over a `Store`, and the lemmas
  about them.

Each mutating method is proved against its step function. Its contract
says that when the step fails, the method throws the step's error and the
slot is unchanged. When the step succeeds, the slot becomes what
`saveTasks` leaves and the method returns the step's value or the save
error. The promises of the service are then lemmas about the step
functions and the listing.

The generated id (`generateUUID()`) and the timestamp (`Date.now()`)
are parameters of `AddTask`. What `localStorage.setItem` does (store the
text, or throw some error) is a parameter of every saving operation.

### Where the code goes beyond its documented contract

The model follows the code in each of these cases:

- `toggleTask` and `deleteTask` search with `t => t.id === taskId`. A null
  entry in the stored array makes that callback throw a `TypeError` before a
  later match is reached. So a list holding `null` ahead of a task makes
  that task impossible to toggle or delete, and the error is not "Task not
  found", although the listing skips the null and shows the task
  (`NullEntryBeforeMatchThrows`).
- Toggling sets `completed` to `!completed`. On an entry whose only defect
  is a missing or non-boolean `completed`, this produces a well-typed
  record, so toggling can make a previously hidden entry appear in the
  listing (`ToggleListing`).
- Description length is JavaScript's `length`, which counts UTF-16 code
  units. A character outside the Basic Multilingual Plane counts twice.
  Strings holding an unpaired surrogate are outside the model (see "Left
  out").

## Model

| member | source | states |
|---|---|---|
| `JsString.TrimStart` | src/tasks.js:22 | the result is a suffix of the input, starts with a non-whitespace character, and only whitespace was dropped |
| `JsString.TrimEnd` | src/tasks.js:22 | the result is a prefix of the input, ends with a non-whitespace character, and only whitespace was dropped |
| `JsString.Trim` | src/tasks.js:22 | `trim()` gives the empty string exactly when the input is all whitespace; otherwise both ends of the result are non-whitespace |
| `JsString.TrimIdempotent` | src/tasks.js:22 | trimming a trimmed string changes nothing |
| `JsString.Utf16Length` | src/tasks.js:23 | `length` lies between the number of characters and twice that, and is 0 only for the empty string |
| `JsString.Utf16LengthAppend` | src/tasks.js:23 | the UTF-16 length of a concatenation is the sum of the lengths |
| `JsString.TrimShortens` | src/tasks.js:22-23 | trimming never increases the UTF-16 length |
| `Json.Prop` | src/tasks.js:68-72 | reading `id`, `description`, `completed` or `createdAt` gives an object's own field when it has one, and `undefined` otherwise and on every non-object |
| `Tasks.DescriptionValidity` | src/tasks.js:15-24 | non-strings (null, undefined, numbers, objects, arrays) are invalid; a string is valid iff it is not all whitespace and its trimmed form has at most 500 code units |
| `Tasks.ShortDescriptionValid` | src/tasks.js:21-23 | a string that is not all whitespace and has at most 500 code units is valid |
| `Tasks.LongUnpaddedDescriptionInvalid` | src/tasks.js:21-23 | a string with non-whitespace ends and more than 500 code units is invalid |
| `Tasks.TaskRecordShape` | src/tasks.js:67-73 | the listing filter accepts exactly objects with a string `id`, a string `description`, a boolean `completed` and a number `createdAt`; extra fields are allowed |
| `Tasks.NewTask` | src/tasks.js:45-50 | the created task passes the listing filter and carries the given id, description, `completed = false` and timestamp |
| `Tasks.WellTyped` | src/tasks.js:67-73 | the filtered list holds only task records, and a value occurs in it iff it is a stored task record |
| `Tasks.WellTypedAppend` | src/tasks.js:67-73 | filtering distributes over concatenation, so it keeps the stored order |
| `Tasks.Insert` | src/tasks.js:76 | inserting adds exactly the one entry (as a multiset and by membership) |
| `Tasks.InsertNewestFirst` | src/tasks.js:76 | inserting into a list ordered by `createdAt` descending keeps it ordered |
| `Tasks.SortNewestFirst` | src/tasks.js:76 | the sorted list is a permutation of its input and is ordered by `createdAt` descending |
| `Tasks.InsertStable` | src/tasks.js:76 | an inserted entry goes before every entry with the same timestamp |
| `Tasks.SortStable` | src/tasks.js:76 | the sort is stable: entries with equal `createdAt` keep their input order |
| `Tasks.NewestFirstDeterminedByGroups` | src/tasks.js:76 | two lists ordered newest first with the same entries, in the same order, at every timestamp are equal |
| `Tasks.StableSortUnique` | src/tasks.js:76 | any stable newest-first ordering of the records, whatever the sort algorithm, equals `SortNewestFirst` |
| `Tasks.ListingSpec` | src/tasks.js:63-77 | `getAllTasks` lists exactly the stored task records, as a permutation of the filtered list, ordered by `createdAt` descending, with ties in stored order |
| `Tasks.Scan` | src/tasks.js:89 | the search stops at the first entry that is null (the callback throws) or has the id (a match); every entry it passed is neither |
| `Tasks.FindTask` | src/tasks.js:113 | the search loop returns what the search specification `Scan` gives |
| `Tasks.AddStep` | src/tasks.js:32-57 | an invalid description fails with "Description must be 1-500 characters" before the limit is checked; a raw length of 100 or more fails with "Task limit (100) reached"; otherwise the list gains the new task at its end and that task is returned |
| `Tasks.Toggled` | src/tasks.js:96 | `completed` becomes the negated truthiness of its old value, and every other field is kept |
| `Tasks.ToggleStep` | src/tasks.js:85-102 | no match fails with "Task not found"; a null entry first fails with the TypeError; otherwise only the first matching entry changes, only in `completed`, and it is returned |
| `Tasks.DeleteStep` | src/tasks.js:109-124 | no match fails with "Task not found"; a null entry first fails with the TypeError; otherwise exactly the first matching entry is removed, the rest keep their order, and the length drops by one |
| `Tasks.CapacityInvariant` | src/tasks.js:39-42 | when the raw list holds at most 100 entries before an add, toggle or delete, it holds at most 100 after it |
| `Tasks.MalformedEntriesFillCapacity` | src/tasks.js:39-42 | 100 malformed entries list nothing and still make every add fail with the limit error |
| `Tasks.AddedTaskListed` | src/tasks.js:52-56 | after an add, the listing read back from the store holds the new task in addition to everything it held before |
| `Tasks.NewestAddedListedFirst` | src/tasks.js:76 | a task added with a timestamp later than every stored record is listed first |
| `Tasks.ScanFindsReplaced` | src/tasks.js:89 | replacing the found entry by one with the same id leaves the search result unchanged |
| `Tasks.ToggleTwiceRestores` | src/tasks.js:96 | toggling the same id twice restores the stored list and returns the original entry when `completed` was boolean |
| `Tasks.ToggleListing` | src/tasks.js:96 | toggling changes the filtered list only at the toggled entry, and the toggled entry is a record iff its other three fields are well typed |
| `Tasks.WellTypedAround` | src/tasks.js:67-73 | filtering a list with one entry replaced splits around that entry |
| `Tasks.RemoveAtListing` | src/tasks.js:120 | splicing out one entry removes it once from the listing, and only if it was listed |
| `Tasks.DeleteListing` | src/tasks.js:120 | after a delete, the listing lacks the removed entry once and keeps every other record in stored order |
| `Tasks.UnknownIdNotFound` | src/tasks.js:91-93 | an id no entry has, in a list without null entries, makes toggle and delete fail with "Task not found" |
| `Tasks.NullEntryBeforeMatchThrows` | src/tasks.js:89 | a null entry before the first match makes toggle and delete throw the TypeError, and that entry is never listed |
| `Tasks.AddTask` | src/tasks.js:32-57 | on a failed step, the step's error is thrown and the slot is unchanged; otherwise the list is saved and the new task or the save error is returned; at most 100 entries stay at most 100 |
| `Tasks.ToggleTask` | src/tasks.js:85-102 | on a failed step (not found, or a null entry), the error is thrown without saving; otherwise the toggled list is saved and the toggled task or the save error is returned |
| `Tasks.DeleteTask` | src/tasks.js:109-124 | on a failed step, the error is thrown without saving; otherwise the shortened list is saved and nothing or the save error is returned |
| `Storage.LoadTasks` | src/storage.js:11-32 | a stored array is returned unchanged, malformed elements included; anything else (absent, empty text, unreadable, unparseable, not an array) gives the empty list; the function is total, so loading never throws |
| `Storage.SlotAfterSave` | src/storage.js:39-49 | after a successful save, loading returns exactly the saved list (the round trip); after a failed one, the slot is as before |
| `Storage.SaveOverwrites` | src/storage.js:42 | what a successful save leaves does not depend on the earlier slot contents |
| `Storage.Store.Save` | src/storage.js:39-49 | the slot becomes the saved list; a quota failure becomes `Error("Storage quota exceeded")`; any other failure is rethrown unchanged and leaves the slot as it was |

## Left out

- JSON text: the slot holds the value `JSON.parse` makes of the stored text,
  not the text. Every modelled value is plain JSON data, so
  `JSON.parse(JSON.stringify(x))` gives `x` back. JSON numbers are
  integers here, so the comparator's floating-point subtraction is integer
  comparison.
- Object key order is not modelled, because objects are maps. It affects
  only the text `JSON.stringify` produces.
- `console.error` in `loadTasks` is logging only, and is left out.
- `localStorage` itself. Reads are the five kinds of slot contents. What
  `setItem` does is a parameter (`Stored` or `Throws(fault)`).
- `generateUUID` (`src/utils.js`) and `Date.now()` are parameters of
  `AddTask`. Uniqueness and UUID format of ids are not modelled; nothing in
  the data layer relies on them.
- `Array.prototype.sort` is modelled by an insertion sort. `StableSortUnique`
  shows that every stable sort newest first gives the same list.
- `Tasks.NullEntryBeforeMatchThrows` and `Tasks.ToggleStep`: the TypeError
  message is the V8 engine's wording; other engines word it differently.
- Strings are sequences of Unicode scalar values. A JavaScript string
  holding an unpaired surrogate cannot be represented, so
  `isValidDescription`, `trim` and `length` on such input are not modelled.
- Built-in properties such as an array's or a string's `length` are not
  modelled by `Json.Prop`; the data layer reads only the four task fields.
- Prototype properties are not modelled. A JSON key such as `"__proto__"` is
  treated as an ordinary field.
- `src/ui.js` and `src/main.js` (DOM rendering, events, timers, feature
  detection) are not part of this model.
- Concurrent writers to the same storage are not modelled. The code assumes
  a single synchronous caller.
