# Smart Task Manager — a Dafny model of the task-list core

The Smart Task Manager is a browser page that keeps a list of short tasks,
each with a text, a completed flag, a priority (`high`, `medium`, `low`) and
an optional `YYYY-MM-DD` due date. The list is saved to local storage. This
project models the logic of `script.js` that decides what the list holds and
how it is shown:

- the **migration** of the array read from storage. Records without a truthy
  `id` are upgraded to the current shape, and a flag says whether any was
  (module `Migration`, file `migration.dfy`);
- the **display order** of `renderTasks`. The indexes of the tasks that pass
  the active filter are sorted with the comparator: open tasks before completed
  ones, then by priority rank, with equal keys kept in list order because
  `Array.prototype.sort` is stable (module `Projection`, `projection.dfy`);
- the **mutations** of the in-memory `tasks` array. These are add by text
  (trimmed, with duplicate texts rejected), add the three suggestions, toggle
  by index and delete by index (module `Store`, `store.dfy`, with the
  `TaskStore` class holding the list);
- the **overdue** test of a displayed task, and the JavaScript string
  behaviour all of this relies on: `trim`, and `<` on strings, which orders
  zero-padded dates chronologically (modules `Tasks` and `Text`).

The clock, the random number generator and today's date are inputs. A
caller supplies fresh ids (non-empty strings), creation timestamps (opaque
strings) and `today`. `JSON.parse` is an input too: the model receives what
it produced.

JavaScript truthiness is written out. A stored record is `Shaped` (it has the
current fields), `Legacy` (only a text and a `completed` value of any type) or
`Nullish`. It keeps its place unchanged exactly when it is `Shaped` with a
non-empty id. An upgraded record keeps the legacy text if that was truthy,
and otherwise gets `""`. It keeps `completed` only if that was a boolean.

The model follows the code:

- Toggle and delete act on the array index the task was rendered with, not on
  an id.
- A priority is any string. The intended comparator ranks unknown strings as
  medium; the code does so except for `Object.prototype` member names (see
  Findings).
- `addTaskByText` trims the text and compares it with each stored text
  exactly.

## Model

| member | source | states |
|---|---|---|
| `Text.Trim` | script.js:239 | `String.prototype.trim`: the input without its leading and trailing run of ECMAScript whitespace and line terminators; characterised by `Text.TrimSlice` |
| `Text.LexLess` | script.js:94 | JavaScript `<` on strings: the first differing character decides, a proper prefix is smaller; its date meaning is stated by `Text.DateOrder` |
| `Text.TrimSlice` | script.js:239 | `trim` returns a contiguous slice of its input, removes only whitespace before and after it, and leaves no whitespace at either end |
| `Text.TrimIdempotent` | script.js:239 | trimming a trimmed text changes nothing |
| `Text.DateOrder` | script.js:90-94 | for two `YYYY-MM-DD` strings, string `<` holds exactly when the first date's YYYYMMDD number is smaller |
| `Tasks.CreateTaskObject` | script.js:224-233 | a new record is open and carries the given text, id and timestamp; its priority is never empty (`priority \|\| 'medium'`) and its due date is either absent or a non-empty string (`dueDate \|\| null`) |
| `Tasks.IsOverdue` | script.js:92-97 | the overdue highlight: a truthy due date, an open task, and due date `<` today as strings; its meaning is stated by `Tasks.OverdueMeansPastDue` |
| `Tasks.OverdueStaysOverdue` | script.js:92-97 | a task overdue on one day is still overdue on every later day |
| `Tasks.OverdueMeansPastDue` | script.js:92-97 | for ISO dates, a task is overdue exactly when it has a due date, is open and its due day is before today; a task due today or completed is never overdue |
| `Migration.Upgrade` | script.js:43-51 | the record built for an element without an id: the supplied id, the truthy legacy text or "", the boolean `completed` or false, priority "medium", no due date, the supplied timestamp |
| `Migration.Normalize` | script.js:36-52 | the `map` callback: an element with a truthy id is returned as it is, any other is upgraded; per position this is what `Migration.Migrate` states |
| `Migration.Migrate` | script.js:33-55 | output as long as the input; records with a truthy id unchanged in place; every other record replaced by one with the supplied non-empty id, the legacy text, the boolean `completed` or false, priority "medium", no due date; every output id non-empty; `migrated` exactly when some input record lacks a truthy id |
| `Migration.MigrateTasksIfNeeded` | script.js:33-55 | the map with the captured flag, written as a loop, returns exactly `Migrate`'s list and flag |
| `Migration.MigrateIdempotent` | script.js:36-40 | migrating the migrated list again returns the same list with `migrated` false, whatever ids the second pass would use |
| `Migration.MigrateCurrentUnchanged` | script.js:37-40 | a list whose records all have ids comes back unchanged with `migrated` false |
| `Migration.LoadTasks` | script.js:58-81 | a missing or empty slot, a parse failure or a non-array value gives an empty list and no write-back; an array gives exactly the migrated list (so of the same length), written back exactly when some element lacked a truthy id; every loaded id is non-empty |
| `Projection.MatchesFilter` | script.js:151-176 | `matchesCurrentFilter` with the filter and today's date as parameters; stated case by case by `Projection.FilterSemantics` |
| `Projection.FilterSemantics` | script.js:151-176 | "completed" accepts exactly the completed tasks and "pending" exactly the others; "high" accepts exactly priority "high"; "today" accepts exactly the tasks due on the (non-empty) given date; "all" and every unknown filter accept every task |
| `Projection.Rank` | script.js:205-207 | ranks are at most 2; rank 0 exactly for "high", rank 2 exactly for "low"; every other value (medium, unknown, missing) ranks 1 |
| `Projection.Compare` | script.js:196-214 | the comparator with the intended rank: -1 when the first task is open and the second completed, 1 for the reverse, then by rank, else 0; stated as the (completed, rank) order by `Projection.CompareIsKeyOrder` |
| `Projection.RankAsWritten` | script.js:205-207 | `order[p]` as the code looks it up: 0, 1 or 2 for the three own keys, `undefined` (giving 1) for other names, and no number for names inherited from `Object.prototype` |
| `Projection.CompareAsWritten` | script.js:196-214 | the comparator as written: as `Compare` except that a rank that is no number makes both `<` and `>` false, so the result is 0; two different inherited names compare by the engine's text for them, which is left open (no result); shown inconsistent by `Projection.InheritedPriorityBreaksComparator` |
| `Projection.CompareIsKeyOrder` | script.js:196-214 | the comparator is the lexicographic order on (completed, rank). It is antisymmetric, and both "less" and "equal" are transitive, as a consistent sort comparator must be |
| `Projection.RenderOrder` | script.js:179-221 | the displayed index list holds exactly the indexes whose task passes the filter, and each consecutive pair is in strict (completed, rank, index) order |
| `Projection.FilterIndexes` | script.js:183-190 | the kept indexes are exactly the valid indexes whose task passes the filter, in increasing order |
| `Projection.SortIndexes` | script.js:196-214 | the sorted list holds exactly the given indexes, and each consecutive pair is in strict (completed, rank, index) order |
| `Projection.InsertionPoint` | script.js:196-214 | the stable insertion position: every later entry has a strictly larger key or the same key and a larger index, and the entry just before compares <= 0 |
| `Projection.InsertSorted` | script.js:196-214 | inserting an index where the stable insertion stops (after the last entry that compares <= 0 with it) keeps the list strictly ordered |
| `Projection.ProjectionMeaning` | script.js:183-214 | in a display order no index repeats; every open task comes before every completed one; ranks do not decrease within a group; equal keys appear in increasing list order |
| `Projection.SortedUnique` | script.js:212-213 | two strictly ordered lists with the same indexes are equal, so the stable sort's result is determined |
| `Projection.ExampleOrder` | script.js:196-214 | open high A, open low B, completed high C and open medium D, added in that order, are shown as A, D, B, C under "all" |
| `Projection.InheritedPriorityBreaksComparator` | script.js:205-207 | with stored priority "constructor", the comparator as written ties that task with a high and with a low task while putting high before low; ranked as medium it sits between them |
| `Projection.CompareAsWrittenAgrees` | script.js:205-210 | for priorities that are not `Object.prototype` member names, the comparator as written equals the corrected one |
| `Store.CountText` | script.js:243-245 | the number of tasks with a given text is positive exactly when `some` finds one |
| `Store.SomeHasText` | script.js:243-245 | the duplicate search returns true exactly when some task has the text |
| `Store.WithTaskAdded` | script.js:238-253 | the list after `addTaskByText`: the old list, or the old list with one record appended; which of the two and the record itself are stated by `Store.AddRejects` and `Store.AddAppends` |
| `Store.AddRejects` | script.js:238-246 | adding leaves the list unchanged exactly when the trimmed text is empty or some task already has exactly that text |
| `Store.AddAppends` | script.js:224-233 | a successful add appends one record and keeps the earlier ones; the record has the trimmed text, is open, has the given truthy priority or "medium", the given truthy due date or none, the supplied id and timestamp |
| `Store.AddKeepsTextsDistinctAndClean` | script.js:238-250 | if no two tasks shared a text before an add, none do after; if every text was non-empty and trimmed, it still is |
| `Store.AddCount` | script.js:238-250 | an add raises the count of its trimmed text from 0 to 1 when that text is non-empty and absent, and changes no other count |
| `Store.DuplicateAddScenario` | script.js:238-250 | adding a text with high priority to an empty list, then the same trimmed text with low priority, leaves one high-priority record |
| `Store.WithAllAdded` | script.js:281-283 | one `addTaskByText(s, null, 'medium')` per text, in order; stated by `Store.AllAddedPresent` and `Store.AllAddedCounts` |
| `Store.WithSuggestionsAdded` | script.js:273-284 | the list after `addSuggestedTasks()`; stated by `Store.SuggestionsCounted` and `Store.SuggestionsIdempotent` |
| `Store.AllAddedPresent` | script.js:281-283 | adding texts that are all present already changes nothing |
| `Store.AllAddedCounts` | script.js:281-283 | adding distinct trimmed texts in turn leaves each of them present once if it was absent and as often as before if present; other counts are unchanged |
| `Store.SuggestionsCounted` | script.js:273-284 | after `addSuggestedTasks` the earlier records are untouched; each suggestion occurs once if it was absent, otherwise as often as before; other texts keep their counts |
| `Store.DistinctCountAtMostOne` | script.js:243-246 | in a list whose texts are distinct, which is what the duplicate check keeps, every text occurs at most once |
| `Store.SuggestionsOnceEach` | script.js:273-284 | from a list with distinct texts, `addSuggestedTasks` leaves each suggestion present exactly once |
| `Store.SuggestionsIdempotent` | script.js:273-284 | running `addSuggestedTasks` a second time changes nothing |
| `Store.Toggled` | script.js:127-131 | the list after the toggle handler: record `index` with `completed` negated; stated by `Store.ToggleFlipsOne` |
| `Store.ToggleFlipsOne` | script.js:127-131 | toggling keeps the length, changes only record `index`, and in it only `completed`, which is negated; toggling twice restores the list |
| `Store.Deleted` | script.js:138-143 | the list after `splice(index, 1)`; stated by `Store.DeleteRemovesOne` |
| `Store.DeleteRemovesOne` | script.js:138-143 | deleting shortens the list by one, keeps the records before `index` in place and shifts the later ones down by one; the removed record is exactly the one at `index` (multiset) |
| `Store.ToggleDeleteKeepTexts` | script.js:127-143 | toggling and deleting keep texts distinct and clean |
| `Store.TaskStore.constructor` | script.js:19 | the list starts empty |
| `Store.TaskStore.Load` | script.js:58-81 | installs the list `LoadTasks` gives and returns whether it must be written back |
| `Store.TaskStore.AddTaskByText` | script.js:238-253 | the trimmed, duplicate-checked push: the new list is `WithTaskAdded` of the old one |
| `Store.TaskStore.AddSuggestedTasks` | script.js:273-284 | one add per suggestion, in order: the new list is `WithSuggestionsAdded` of the old one |
| `Store.TaskStore.AddEach` | script.js:281-283 | the `forEach` over the texts: the new list is `WithAllAdded` of the old one, one add per text in order |
| `Store.TaskStore.ToggleCompleted` | script.js:127-131 | the new list is the old one with `completed` of record `index` flipped |
| `Store.TaskStore.DeleteTask` | script.js:138-143 | the new list is the old one without record `index` |

## Findings

| source | as written | input that shows it | evidently intended | confidence | as-written member | corrected member |
|---|---|---|---|---|---|---|
| script.js:205-207 | `order[taskA.priority]` looks the priority up in an object literal, so names inherited from `Object.prototype` ("constructor", "toString", "__proto__", …) give a function or object, not `undefined`; `<` and `>` against a number are then both false and the comparator returns 0 | three open tasks with stored priorities "high", "low" and "constructor": the third compares equal to both, while high compares before low, so the comparator is inconsistent and the sort order is implementation-defined | any priority other than high, medium and low ranks as medium (the comment on line 206) | not executed | `Projection.CompareAsWritten`, shown by `Projection.InheritedPriorityBreaksComparator` | `Projection.Compare` with `Projection.Rank`, proved consistent by `Projection.CompareIsKeyOrder` and used by `Projection.RenderOrder` |

## Left out

- Storage: `saveTasks`, `localStorage` and `JSON.stringify`/`JSON.parse` are browser I/O and a foreign serialiser. `LoadTasks` takes what the slot held and what parsing gave, and reports whether the list would be written back. The write itself, and the round trip through JSON, are not modelled.
- Migration.LoadTasks: if `saveTasks()` throws during the write-back (script.js:72-74), control reaches the `catch` and the list becomes empty (script.js:75-78). The write is outside the model, so `LoadTasks` describes a write-back that succeeds.
- Clocks and randomness: `Date.now()`, `Math.random()` and `new Date().toISOString()` are inputs. Ids and timestamps come from the caller, and `today` is a parameter.
- Migrate: upgraded records all get the single timestamp `now`. The source reads the clock once per record; timestamps are opaque, and nothing reads them.
- Record field types: a stored record with a truthy id has the model's field types. Stored values of other types, such as a numeric id or a string `completed`, are not modelled. A missing `text` or `priority` is modelled as `""` and a missing `completed` as false, which every reader treats the same way. A legacy `text` that is truthy but not a string is not modelled.
- `rawTasks || []`: `loadTasks` always passes an array, so a null argument to the migration is not modelled.
- String order: JavaScript compares strings by UTF-16 code unit, the model by code point. The two differ only between characters above U+FFFF and characters U+E000 to U+FFFF; dates are ASCII.
- Aliasing: the source keeps task objects and toggles them in place. The model holds them as values in the list. Only the list refers to them, so nothing observable differs.
- Projection.RenderOrder: the model sorts with the corrected comparator. For priorities named after `Object.prototype` members, the source's order is implementation-defined (see Findings).
- UI glue: DOM construction, class names, the capitalised priority label, the due-date label, and all event wiring are left out. This includes the filter buttons' `currentFilter = selected || 'all'`; the filter is a parameter of `RenderOrder`.
- `addTask` only reads and clears the input widgets before calling `addTaskByText`. `suggestTasks` only writes a fixed list into a `div`. Neither is modelled.
- Store.TaskStore.AddTaskByText, Store.TaskStore.AddSuggestedTasks, Store.TaskStore.AddEach, Store.TaskStore.ToggleCompleted, Store.TaskStore.DeleteTask: these assume `saveTasks()` returns normally. Each handler changes `tasks` first and then saves (script.js:250-251, 128-129, 140-141). If `localStorage.setItem` throws, for example when the quota is exceeded, two things follow that the model does not capture. (a) The exception leaves the `forEach` of `addSuggestedTasks` (script.js:281-283), so one call adds only the first absent suggestion and the next call adds another; `SuggestionsIdempotent` does not describe that run. (b) After a `splice`, `renderTasks()` is skipped (script.js:140-142), so the rows on screen keep their old indexes. Every row after the deleted one then points one slot too far. Toggling the last row throws a TypeError at script.js:128, and deleting it is a `splice` that does nothing.
- `splice` and the index access with an index outside the list: when every save returns, the handlers only use indexes from the last render, so `ToggleCompleted` and `DeleteTask` require a valid index. The failed-save case above is the exception.
- Concurrency: two open pages overwriting each other's saved list is not modelled.
