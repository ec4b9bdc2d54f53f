# To-do list: a Dafny model of the task-list core

The original program is a single-page to-do list (`app.js`). It keeps an ordered
array `tasks` of records `{id, text, completed}` and writes it to
`localStorage` after every change. `addTask` changes the array in place with
`unshift`; `toggleComplete` and `disableEdit` assign a field of one record;
`deleteTask`, the drop handler and the clear button assign a new array to
`tasks`. The event handlers do the following:

- `addTask` trims the input and puts a new task at the front.
- `deleteTask` filters a task out by id.
- `toggleComplete` sets a task's completion flag.
- `disableEdit` commits an inline edit: it renames the task, or deletes it when
  the edit trims to nothing.
- the drop handler rebuilds the order from the ids of the list items.
- the clear button empties the list.

Task texts are shown through `escapeHtml`.

The model has four modules:

- `Text` (`text.dfy`) models JavaScript's `String.prototype.trim`. It uses the
  exact set of white-space and line-terminator code points from ECMA-262
  (sections 12.2, 12.3 and 22.1.3.32).
- `Html` (`html.dfy`) models `escapeHtml` as the chain of five `replaceAll`
  passes. It is proved equal to a per-character substitution. The lemmas also
  show that the output has no `<`, `>`, `"` or `'`, and that text without the
  five special characters is left as it is.
- `Tasks` (`tasks.dfy`) is the value-level specification. It has the `Task`
  datatype and one function for each change to the list: `Added`, `Without`,
  `SetCompleted`, `SetText` and `Reordered`. Lemmas state what each change
  means: order kept, exactly which tasks are affected, idempotence,
  permutation. They also show when a change keeps the list `WellFormed`
  (unique ids, and every text trimmed and non-empty). `Without` and
  `SetCompleted` always keep it. `Added` keeps it when the id is fresh and the
  text trims to something non-empty. `SetText` keeps it when the new text is a
  task text. `Reordered` keeps it when its id list has no duplicates.
- `Store` (`store.dfy`) holds the class `TaskStore`. The field `tasks` is the
  module-level array. The ghost field `saved` stands for the durable copy that
  `saveTasks()` writes. Each method states the new `tasks` and `saved` in terms
  of the old list, including when the source saves and when it does not.
  `DeleteTask`, `ToggleComplete`, `DisableEdit` and `Clear` keep `Valid()`
  whenever it held before. `AddTask` keeps it when the new id is not already
  in the list, and `Drop` keeps it when its id list has no duplicates.

Three behaviours of the code worth noting:

- `disableEdit` saves the list even when no task has the id (`app.js:163`
  runs outside the `if (t)`).
- The task operations return nothing; a caller cannot tell whether an id was
  found.
- `find` updates only the first task with a given id, while `filter` removes
  every task with that id. The model keeps both behaviours. The `...Only`
  lemmas show that the difference vanishes when ids are unique.

## Model

| member | source | states |
|---|---|---|
| Text.IsWhiteSpace | app.js:123 | the characters `trim` strips: ECMAScript WhiteSpace (tab, vertical tab, form feed, space, no-break space, byte-order mark and Unicode class Zs) and LineTerminator (LF, CR, U+2028, U+2029), by code point |
| Text.WhiteSpaceCases | app.js:123 | space, tab, LF, CR, no-break space, U+2028 and the byte-order mark are stripped; the zero-width space U+200B, U+180E, letters and `&` are not |
| Text.TrimStart | app.js:123 | the result is a suffix of the input, only white space was cut, and it does not start with white space |
| Text.TrimEnd | app.js:123 | the result is a prefix of the input, only white space was cut, and it does not end with white space |
| Text.Trim | app.js:123 | the result is no longer than the input and, if non-empty, starts and ends with a non-white character |
| Text.TrimIsInfix | app.js:123 | the trimmed text is a contiguous piece of the input, with only white space on both sides of it |
| Text.TrimEmptyIff | app.js:123-124 | trimming gives the empty string exactly when the input is all white space, which is when `addTask` returns early |
| Text.TrimIdempotent | app.js:123-125 | trimming is idempotent; a non-empty trimmed string is a task text; task texts are exactly the non-empty strings that trimming leaves alone |
| Html.ReplaceAll | app.js:114 | `replaceAll` of one character by a `$`-free replacement; a pass whose character does not occur leaves the string unchanged |
| Html.ReplaceAllLength | app.js:114-118 | a pass with a non-empty replacement never shortens the string |
| Html.ReplaceAllConcat | app.js:114-118 | one `replaceAll` pass distributes over concatenation |
| Html.ReplaceAllRemoves | app.js:114-118 | after a pass its character is gone, unless the replacement contains it |
| Html.ReplaceAllKeepsOut | app.js:114-118 | a pass never introduces a character that is in neither the input nor the replacement |
| Html.EscapeChar | app.js:114-118 | each of the five special characters maps to an entity `&...;`; every other character maps to itself |
| Html.EscapeEach | app.js:112-118 | the per-character escape is never shorter than its input |
| Html.EscapeHtml | app.js:112-118 | the five passes in the source's order, `&` first; the result is never shorter than the text |
| Html.EscapeHtmlConcat | app.js:112-118 | the `escapeHtml` chain distributes over concatenation |
| Html.EscapeHtmlChar | app.js:112-118 | on a single character the chain yields exactly that character's entity, because `&` is replaced first |
| Html.EscapeHtmlIsEscapeEach | app.js:112-118 | the chain of five `replaceAll` calls equals the per-character substitution |
| Html.EscapeHtmlNoMarkup | app.js:112-118 | the escaped text contains no `<`, `>`, `"` or `'` |
| Html.AngleBracketPasses | app.js:115-116 | after the `<` and `>` passes neither character remains |
| Html.QuotePasses | app.js:117-118 | the two quote passes remove both quotes and insert no angle bracket |
| Html.EscapeHtmlIdentity | app.js:112-118 | text without any of the five special characters is returned unchanged |
| Html.EscapeHtmlLength | app.js:112-118 | escaping keeps the length exactly when the text has no special character |
| Tasks.Ids | app.js:188 | the ids of the list, one for each task, in list order |
| Tasks.FindIndex | app.js:137 | `find` stops at the first task with the id, and finds nothing exactly when no task has it |
| Tasks.FindIndexNone | app.js:137-138 | when `find` finds nothing, no task has the id |
| Tasks.FindIndexUnique | app.js:137 | with unique ids, `find` stops at a task exactly when that task has the id |
| Tasks.Find | app.js:189 | `find` returns the first task with the id, which is a member of the list; nothing is found exactly when the id is absent |
| Tasks.Added | app.js:125 | `unshift` makes the list one longer, with a head that has the given id and text and is not completed, followed by the old list unchanged |
| Tasks.AddedWellFormed | app.js:122-126 | a task with a fresh id and a non-empty trimmed text keeps ids unique and texts valid |
| Tasks.Without | app.js:131 | no task with the id remains, every remaining task was in the old list, and an absent id changes nothing |
| Tasks.WithoutIsSubsequence | app.js:131 | the remaining tasks keep their relative order |
| Tasks.WithoutCount | app.js:131 | tasks with the id are gone, and every other task occurs as often as before |
| Tasks.WithoutIdempotent | app.js:130-134 | deleting the same id twice is the same as deleting it once |
| Tasks.WithoutRemovesOne | app.js:131 | with unique ids, deleting a present id removes exactly one task |
| Tasks.WithoutWellFormed | app.js:131 | deleting keeps ids unique and texts valid |
| Tasks.SetCompleted | app.js:139 | toggling keeps the length of the list |
| Tasks.SetCompletedAt | app.js:137-139 | toggling replaces only the task `find` stops at, and changes only its flag |
| Tasks.SetCompletedAbsent | app.js:137-138 | with no task having the id, the list is unchanged |
| Tasks.SetCompletedOnly | app.js:137-139 | with unique ids, the task with the id gets the new flag and every other task is unchanged |
| Tasks.SetCompletedWellFormed | app.js:139 | toggling keeps ids unique and texts valid |
| Tasks.SetText | app.js:162 | renaming keeps the length of the list |
| Tasks.SetTextAt | app.js:161-162 | renaming replaces only the task `find` stops at, and changes only its text |
| Tasks.SetTextAbsent | app.js:161-162 | with no task having the id, the list is unchanged |
| Tasks.SetTextOnly | app.js:161-162 | with unique ids, the task with the id gets the new text and every other task is unchanged |
| Tasks.SetTextWellFormed | app.js:155-162 | renaming to a trimmed non-empty text keeps ids unique and texts valid |
| Tasks.Reordered | app.js:188-189 | the result has no more tasks than there are input ids, and every task in it comes from the old list and has an id from the input |
| Tasks.ReorderedFirstMatch | app.js:189 | each task in the result is the first task of the old list with that id |
| Tasks.Present | app.js:188-189 | the reference definition of which ids survive a drop: an id is in it exactly when it is in the input list and some task has it; the definition filters the input list, so order and repeats are kept |
| Tasks.ReorderedIds | app.js:188-189 | the result's ids are exactly `Present(ids, Ids(old))`: every input id that some task has, in input order, with unknown ids dropped; so they form a subsequence of the input, and equal the input when every id is known |
| Tasks.ReorderedConcat | app.js:189 | rebuilding from a concatenation of id lists gives the concatenation of the results |
| Tasks.ReorderedPermute | app.js:189 | rearranging the input ids rearranges the result: the multisets agree |
| Tasks.ReorderedOwnIds | app.js:189 | rebuilding a list with unique ids from its own ids gives the same list |
| Tasks.ReorderedSkipHead | app.js:189 | ids other than the head's id are looked up in the rest of the list |
| Tasks.ReorderedIsPermutation | app.js:188-189 | with unique ids, a complete rearrangement of the ids gives a permutation of the old list, with no task lost or duplicated |
| Tasks.ReorderedWellFormed | app.js:189 | a duplicate-free id list keeps ids unique and texts valid |
| Tasks.UniqueIdsCons | app.js:125 | putting a task at the front keeps ids unique exactly when its id is new |
| Store.TaskStore.constructor | app.js:13 | the store starts with the loaded list, and the durable copy equals it |
| Store.TaskStore.SaveTasks | app.js:20-22 | the durable copy becomes the current list |
| Store.TaskStore.AddTask | app.js:122-128 | blank input: list and durable copy unchanged; otherwise the trimmed task is put at the front and saved; a fresh id keeps the store valid |
| Store.TaskStore.DeleteTask | app.js:130-134 | the list becomes `Without(old, id)` and is saved, whether or not the id was present; validity is kept |
| Store.TaskStore.ToggleComplete | app.js:136-142 | absent id: nothing changes and nothing is saved; otherwise the list becomes `SetCompleted(old, id, flag)` and is saved; validity is kept |
| Store.TaskStore.DisableEdit | app.js:153-165 | an edit that trims to nothing acts exactly like `DeleteTask`; otherwise the list becomes `SetText(old, id, trimmed)`; it is saved in both cases; validity is kept |
| Store.TaskStore.Drop | app.js:185-192 | the list becomes `Reordered(old, ids)` and is saved; a duplicate-free id list keeps the store valid |
| Store.TaskStore.Clear | app.js:217-222 | the list and the durable copy are both empty |

## Left out

- Rendering, event wiring, `enableEdit`, the Escape-key re-render and the `n` keyboard shortcut (`app.js:36-110`, `144-151`, `209-229`). These are DOM plumbing. The model starts where a handler calls a task operation.
- `getDragAfterElement` and the `dragover` handler (`app.js:173-183`, `195-206`). They only move list items on screen using floating-point geometry. The drop handler is modelled with the resulting id order as a parameter.
- `localStorage`, `JSON.stringify` and `JSON.parse` in `saveTasks` and `loadTasks` (`app.js:20-33`). These are foreign I/O and parsing. The ghost field `saved` records what the last save wrote. The serialisation round trip and the fallback from corrupt storage to an empty list are not modelled.
- Store.TaskStore.constructor: takes the list that `loadTasks` produced as a parameter, and starts `saved` equal to it. When storage was absent or corrupt, the real slot does not hold that list.
- `uid()` (`app.js:16-18`) reads the clock and a random source. `AddTask` takes the id as a parameter. The source does not check that the id is fresh, so freshness is a hypothesis of the well-formedness guarantee, not a precondition.
- A failing `localStorage.setItem` (for example a full quota) inside `saveTasks` (`app.js:21`). It throws after the list has already changed, so nothing is saved and nothing is re-rendered. The model ends every saving operation with `saved == tasks`, so it covers only saves that succeed.
- The `confirm` dialog before clearing (`app.js:218`). It is UI, so `Clear` models the confirmed case.
- The `window._todo` debugging hook (`app.js:235-239`).
- Object identity: the source's records are mutable objects, and the model's tasks are values. This differs only when two array slots hold the same object. That can happen only when the drop handler receives a duplicated id, which needs duplicate ids already in the list. In that case the source would later update both slots together, and the model updates one.
- `isCompleted` is a boolean in the model. The source's `!!isCompleted` conversion of a non-boolean value is not modelled.
