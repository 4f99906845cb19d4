# To-do list store, modelled in Dafny

The to-do page keeps its tasks in one module-level array, `tasks`, of records
`{id, title, completed}`. Four functions stand in for a REST backend, and each
runs after an artificial delay:

- `getTasks` replaces the list with two seed tasks.
- `postTask` appends a new incomplete task whose id is the clock reading.
- `putTask` merges a partial record into the first task with a given id.
- `deleteTask` filters out every task with a given id.

The event handlers decide when to call these functions:

- The add form posts the trimmed input, and only when it is not empty.
- The checkbox flips the `completed` flag of an existing task.
- The edit button puts a new trimmed title after a prompt.
- The delete button deletes by id.

This project models the list operations and the handler decisions:

- `text.dfy` (module `Text`): `trim` as the removal of leading and trailing
  whitespace. The whitespace set is fixed: the ECMAScript WhiteSpace and
  LineTerminator code points.
- `tasks.dfy` (module `Tasks`): the records, the partial record (`Patch`:
  an optional title and an optional completion flag), the pure list operations
  (`findIndex`, `find`, the object spread, `filter`), and lemmas about them.
- `handlers.dfy` (module `Handlers`): the guards of the add, toggle and edit
  handlers. It also holds the store invariant `ValidList` (distinct ids, every
  title non-empty and trimmed) and proofs of which operations keep it.
- `store.dfy` (module `Store`): the class `TaskStore`. Its `seq<Task>` field
  stands for the global array. Its methods are the four requests and the
  handlers, each specified against the pure functions above.

Each request is treated as one atomic step. The clock reading that becomes a
new id is a parameter, so a distinct id is a condition on the caller and
not a guarantee. The store therefore keeps distinct ids only conditionally:
`PostTask` keeps them exactly when the supplied id is new.

Four behaviours of the code are easy to miss; the model follows the code in
each:

- Ids are not guaranteed unique. `Date.now()` can repeat, so uniqueness is
  conditional.
- `deleteTask` removes every record with the id. When ids are distinct and
  the id occurs, it shortens the list by exactly one (`Tasks.WithoutLength`);
  with a repeated id it removes every copy.
- `putTask` changes only the first record with the id.
- The edit handler can store an empty title (see Findings).

## Model

| member | source | states |
|---|---|---|
| Store.TaskStore.constructor | script.js:22 | the list starts empty |
| Store.TaskStore.GetTasks | script.js:76-88 | the list becomes exactly tasks 1 "Learn Fetch API" and 2 "Build a To-Do List", both incomplete, whatever it held before; the result satisfies the store invariant |
| Tasks.Seed | script.js:80-83 | the seed list has two records, all incomplete, with distinct ids |
| Tasks.SeedContents | script.js:80-84 | the seed list has two records with ids 1 and 2, the two seed titles, both incomplete, and distinct ids |
| Store.TaskStore.PostTask | script.js:94-106 | the list grows by one; earlier records are unchanged and in order; the last record has the given id and title and is incomplete; ids stay distinct exactly when they were distinct and the id is new |
| Tasks.NewTask | script.js:97-101 | the posted record carries the given id and title and starts incomplete |
| Tasks.AppendUnique | script.js:97-102 | appending a record keeps ids distinct if and only if they were distinct and its id did not occur |
| Tasks.FindIndex | script.js:116 | returns -1 exactly when no record has the id; otherwise returns the first index holding it |
| Tasks.Find | script.js:197 | returns nothing exactly when no record has the id; otherwise returns the record at FindIndex |
| Tasks.Merge | script.js:119 | the merged record keeps the id; each field supplied by the patch takes the patch value; each other field keeps its old value |
| Tasks.Updated | script.js:116-119 | same length and same ids in the same places; with the id present, only the first record holding it changes, to its merge with the patch; with the id absent, the list is unchanged |
| Store.TaskStore.PutTask | script.js:113-124 | the new list is Updated of the old one; ids are distinct afterwards exactly when they were before |
| Tasks.UpdatedUnique | script.js:116-119 | an update keeps ids distinct, and cannot make them distinct |
| Tasks.Without | script.js:133 | a record is kept exactly when it was in the list and does not hold the id; the list never grows |
| Tasks.WithoutConcat | script.js:133 | filtering a concatenation is the concatenation of the filtered parts, so the kept records stay in order |
| Tasks.WithoutSingle | script.js:133 | a single record is kept exactly when it does not hold the id |
| Tasks.WithoutOrder | script.js:133 | any two kept records appear in the result in the same relative order as before |
| Tasks.WithoutAbsent | script.js:133 | delete leaves the list unchanged if and only if the id does not occur |
| Tasks.WithoutIdempotent | script.js:133 | deleting the same id twice gives the same list as deleting it once |
| Tasks.WithoutUnique | script.js:133 | deleting keeps ids distinct |
| Tasks.WithoutLength | script.js:133 | with distinct ids, deleting an id that occurs shortens the list by exactly one |
| Store.TaskStore.DeleteTask | script.js:130-137 | the new list is Without of the old one; no record holds the id; it is a no-op exactly when the id was absent; it keeps ids distinct; with distinct ids and the id present, the length drops by one |
| Text.TrimStart | script.js:146 | the result is a suffix of the input; everything dropped is whitespace; the result does not start with whitespace |
| Text.TrimEnd | script.js:146 | the result is a prefix of the input; everything dropped is whitespace; the result does not end with whitespace |
| Text.Trim | script.js:146 | the result is empty exactly when the input is all whitespace; otherwise it neither starts nor ends with whitespace |
| Text.TrimStartOfPadded | script.js:146 | TrimStart removes exactly a whitespace prefix placed before a string that does not start with whitespace |
| Text.TrimEndOfPadded | script.js:146 | TrimEnd removes exactly a whitespace suffix placed after a string that does not end with whitespace |
| Text.TrimOfPadded | script.js:146 | trimming whitespace + m + whitespace gives m, for any m without whitespace at its ends |
| Text.TrimIdempotent | script.js:146 | trimming an already trimmed string changes nothing |
| Handlers.AddTitle | script.js:146-148 | nothing is posted exactly when the input is all whitespace; otherwise the posted title is non-empty, trimmed, and the trim of the input |
| Handlers.AfterAdd | script.js:146-151 | the list after the add handler: unchanged for an all-whitespace input, otherwise the old list plus one incomplete record with the clock reading as id and the trimmed input as title |
| Store.TaskStore.HandleAddTask | script.js:144-164 | the list becomes the old list plus, when the trimmed input is not empty, a new incomplete record with that title; the invariant holds afterwards when it held before and the id is new |
| Handlers.AppendKeepsValid | script.js:97-102 | appending a record with a fresh id and a non-empty trimmed title keeps the store invariant |
| Handlers.AddKeepsValid | script.js:146-151 | the add handler keeps the store invariant when the clock reading is a fresh id |
| Handlers.TogglePatch | script.js:197-202 | a patch exists exactly when a task holds the id; it supplies no title, and it supplies the negation of that task's completion flag |
| Handlers.AfterToggle | script.js:197-202 | the list after the toggle handler: same length and ids; unchanged for an unknown id; otherwise only the first task with the id changes, its flag negated and its title kept |
| Store.TaskStore.HandleToggle | script.js:195-207 | the new list is the old one with the first matching task's flag flipped, or unchanged for an unknown id; the invariant is kept |
| Handlers.FindIndexByIds | script.js:116 | two lists with the same ids give the same findIndex result |
| Handlers.ToggleTwice | script.js:197-202 | toggling the same task twice restores the list |
| Handlers.ToggleKeepsValid | script.js:197-202 | the toggle handler keeps the store invariant |
| Handlers.EditPatchAsWritten | script.js:213-217 | with the guard as written: a patch exists exactly when the answer is a non-empty string whose trim differs from the current title; the patch supplies only that trimmed title |
| Handlers.EditPatch | script.js:213-217 | with the intended guard: a patch exists exactly when the trimmed answer is non-empty and differs from the current title; the patch supplies only the trimmed answer as title, and that title is non-empty, trimmed, and new |
| Handlers.EditGuardsDiffer | script.js:213 | the two guards differ exactly on a non-empty, all-whitespace answer while the current title is non-empty; there the written guard stores an empty title |
| Handlers.EditAsWrittenBlanksTitle | script.js:211-217 | answering " " when editing seed task 1 makes the written guard issue an empty title; the resulting list breaks the invariant that the seed list satisfies |
| Handlers.AfterEdit | script.js:210-217 | the list after the edit handler with the corrected guard `EditPatch`: same length and ids, only the edited task may change and keeps its flag; its title changes exactly when the trimmed answer is non-empty and differs from it, and then becomes that trimmed answer |
| Store.TaskStore.HandleEdit | script.js:208-223 | for an existing task, the list becomes the old one updated with the intended edit patch, or is unchanged; the invariant is kept |
| Handlers.EditKeepsValid | script.js:210-217 | the edit handler with the intended guard keeps the store invariant |
| Store.TaskStore.HandleDelete | script.js:173-194 | the delete handler removes every task with the button's id and keeps the invariant |
| Handlers.DeleteKeepsValid | script.js:133 | deleting keeps the store invariant |
| Handlers.SeedValid | script.js:80-84 | the seed list satisfies the store invariant |

## Left out

- Theme switching with `localStorage` and `matchMedia` (script.js:1-18) is left out: it is browser I/O.
- Rendering (`renderTasks`), the entry and leave animations, and all DOM work are left out: they are presentation only.
- `setTimeout`, the promises, `await`, the loading indicator and the disabling of buttons are left out. Each request is one atomic, sequential step. The code does not coordinate overlapping requests, so they are not modelled.
- `Date.now()` is not modelled as a clock. The new id is a parameter of `PostTask` and `HandleAddTask`.
- `prompt` is not modelled. Its answer is a parameter of `HandleEdit`: `None` means the dialog was cancelled.
- `parseInt` of the button's data attribute is not modelled. Ids are integers, so an id that parses to `NaN` is not modelled.
- Store.TaskStore.HandleEdit: requires that the task exists. With an unknown id the source throws a TypeError on `task.title` (script.js:210-211); that crash is not modelled.
- Handlers.AfterEdit: requires that the task exists, for the same reason as HandleEdit; the unknown-id crash is not modelled.
- Handlers.EditKeepsValid: requires that the task exists, for the same reason as HandleEdit; the unknown-id crash is not modelled.
- `String.prototype.trim` is modelled over a fixed whitespace set. Code points the source's engine may treat as whitespace under a newer Unicode version are not included.
- Patches hold only `title` and `completed`, the only keys the handlers pass (script.js:202, 217). A spread of other keys, for example one overwriting `id`, is not modelled.
- Store.TaskStore.HandleEdit: uses the corrected guard `EditPatch`, not the guard as written. The written guard is `Handlers.EditPatchAsWritten`; see Findings.
- Handlers.AfterEdit: applies the corrected guard `EditPatch`, not the guard as written; see Findings.
- Handlers.EditKeepsValid: is proved for the corrected guard `EditPatch`; the guard as written breaks the invariant (`Handlers.EditAsWrittenBlanksTitle`).

## Findings

| source | as written | input that shows it | evidently intended | confidence | as-written member | corrected member |
|---|---|---|---|---|---|---|
| script.js:213 | `newTitle && newTitle.trim() !== task.title` tests the untrimmed answer for emptiness, then stores `newTitle.trim()` | editing task 1 of the seed list and answering the prompt with " " stores the empty title "" | reject an answer whose trim is empty, as the add handler does (script.js:146-148), so that titles stay non-empty | medium, not executed | Handlers.EditAsWrittenBlanksTitle | Handlers.EditPatch |
