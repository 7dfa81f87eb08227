# Todo list: task collection, filters and heading

This project models the state logic of a React todo-list application
(`src/App.jsx`). The application holds a collection of task records. Each
record has an id, a name, a completion flag and a priority string. The
application keeps that collection in step with a remote task store. It shows
the records that pass two filter tables: one by completion status, one by
priority. A heading counts the visible records.

The model is written as functions and lemmas, as the source is: every update
builds a new array with `filter`, `map` or spread, and `setTasks` replaces the
whole value.

- `sequences.dfy`, module `Sequences`: `Array.prototype.filter` as `Filter`,
  and the order-preserving subsequence relation `IsSubsequence`.
- `tasks.dfy`, module `Tasks`: the `Task` record and the `Draft` posted on
  creation. `TasksValue` is the `tasks` state, which may hold a non-array
  value. `Reply` is the settled outcome of a store call. It also holds the
  `tasks.find` lookup (`FirstIndex`) and the `tasks.map` replacement
  (`ReplaceById`).
- `filters.dfy`, module `Filters`: `FILTER_MAP` and `FILTER_PRIO_MAP` as
  Dafny maps from button names to filter entries. `TaskList` is the visible
  list.
- `updates.dfy`, module `Updates`: `addTask`, `toggleTaskCompleted`,
  `editTask` and `deleteTask`. Each is a function of the collection at call
  time and the store's reply.
- `heading.dfy`, module `Heading`: `tasksNoun`, `headingText`,
  `prioHeadingText`, the decimal printing of the count, and the
  "collection got shorter" test that moves focus to the heading.

Each store call is a parameter, not an action. `Reply<T>` is `Resolved(value)`
when the axios promise resolves and `Rejected` when it rejects. For POST the
value is the created record. For PUT it is `()`, since the body is not used.
For DELETE it is the HTTP status.

The record ids are not checked for uniqueness anywhere in the source. The
model states `Tasks.UniqueIds` as an invariant of the collection. It proves
that each transition keeps it. For `addTask` this needs a store that returns a
fresh id. Where the source's behaviour depends on it, the lemmas say so.

Behaviour of the code worth noting:
- An unknown filter name does not fall back to "All". `FILTER_MAP[filter]` is
  `undefined` and `filter` then throws. So `TaskList` requires both names to
  be keys of their tables. The source throws only when `tasks` is an array:
  for any other value it shows `[]` without looking either name up. The
  requirement costs nothing there, since every name the page passes is a key
  (the `'All'` defaults and the button names).
- Toggling an id that is not in the collection throws: `task.completed` is
  read on `undefined`. So `ToggleTask` requires the id to be present.
- Editing an id that is not in the collection does not throw. Spreading
  `undefined` adds nothing, the update is still sent, and on success the
  `map` matches no record. `EditTask` states that the collection is then
  unchanged.
- `addTask` skips only the empty name, not a blank one: `" "` is posted.
- Toggle and edit replace every record with the id by a copy of the first
  such record. With duplicate ids, all of them become the same record. This
  is modelled as written; the lemmas that describe a single-record change
  assume unique ids.
- The form's priority starts as the number 0, so a record may carry a
  priority that is none of the four names. The strict comparisons of the
  priority table reject it under every entry but "All", as they reject any
  other string; the model represents it by such a string.

## Model

| member | source | states |
|---|---|---|
| Sequences.Filter | src/App.jsx:111-113 | the filtered list is no longer than the input; each element comes from the input and passes the predicate; each input element that passes is kept |
| Sequences.FilterIsSubsequence | src/App.jsx:101 | one filter keeps the relative order of what it keeps |
| Sequences.FilterTwiceIsSubsequence | src/App.jsx:111-113 | two filters in turn keep the relative order of the original |
| Sequences.FilterMembers | src/App.jsx:111-113 | an element is in the filtered list exactly when it is in the input and passes the predicate |
| Sequences.FilterCounts | src/App.jsx:111-113 | filtering keeps every occurrence of an element that passes the predicate and no occurrence of one that does not |
| Sequences.FilterPartition | src/App.jsx:24-28 | filtering by a predicate and by its complement splits the list: the two lengths add up to the input length |
| Sequences.FilterCommutes | src/App.jsx:111-113 | two filters applied in either order give the same list |
| Sequences.FilterKeepsAll | src/App.jsx:25 | a filter that accepts every element returns the list unchanged |
| Tasks.FirstIndex | src/App.jsx:78 | `tasks.find` by id picks the first record with that id: it has the id and no earlier record does |
| Tasks.FirstIndexUnique | src/App.jsx:186 | with unique ids, the record found is the only one with the id |
| Tasks.ReplaceById | src/App.jsx:83 | `map` with the id test keeps the length; records with the id become the replacement; the others stay at their position |
| Tasks.ReplaceByIdKeepsUniqueIds | src/App.jsx:191 | replacing by a record with the same id keeps the ids unique |
| Tasks.FilterKeepsUniqueIds | src/App.jsx:101 | dropping records keeps the ids unique |
| Filters.StatusAccepts | src/App.jsx:24-28 | the status entries: `All` accepts every record, `Active` the records not completed, `Completed` the completed ones |
| Filters.PriorityAccepts | src/App.jsx:32-38 | the priority entries: `All` accepts every record, `High`, `Medium` and `Low` the records whose priority is that exact string, `Non défini` those whose priority is "" |
| Filters.FilterNamesAreTheKeys | src/App.jsx:24-40 | a consistency check of the model's constants, not a property of the view: each button list names every key of its table once, and the tables reach every status and every priority entry |
| Filters.StatusFiltersPartition | src/App.jsx:24-28 | `All` accepts every record; each record passes exactly one of `Active` and `Completed`; the key "Active" selects the records not completed and "Completed" the completed ones |
| Filters.PriorityFiltersPartition | src/App.jsx:32-38 | `All` accepts every record; each key other than "All" accepts exactly the records whose priority equals that key, and "Non défini" those whose priority is ""; a record with "", "Low", "Medium" or "High" passes exactly one of the four other filters; a record with any other priority passes only `All` |
| Filters.TaskList | src/App.jsx:111-126 | a non-array value shows nothing; the visible list is no longer than the collection, and each visible record passes both selected filters |
| Filters.TaskListSelects | src/App.jsx:111-126 | the visible list is an order-preserving subsequence of the collection; a record is in it exactly when it is in the collection and passes both selected filters; each record that passes appears in it as many times as in the collection, each other record not at all; a non-array value shows nothing |
| Filters.TaskListEitherOrder | src/App.jsx:111-113 | applying the priority filter first gives the same visible list |
| Filters.StatusViewsPartition | src/App.jsx:24-28 | under any priority filter, the `Active` and `Completed` views together count as many records as the `All` view |
| Updates.AddRequest | src/App.jsx:154-155 | no record is posted exactly when the name is empty; otherwise the draft has the name and priority and is not completed |
| Updates.AddTask | src/App.jsx:153-164 | an empty name or a rejected call leaves the collection unchanged; a created record is appended at the end, after the unchanged old collection |
| Updates.AddTaskKeepsUniqueIds | src/App.jsx:159 | appending a record whose id is new keeps the ids unique |
| Updates.ToggleTask | src/App.jsx:77-88 | the length is unchanged; a rejected call changes nothing; records with other ids stay in place; on success each record with the id becomes the found record with `completed` inverted and its other fields kept |
| Updates.ToggledRecord | src/App.jsx:78-79 | the record put on toggle is the first record with the id, with `completed` inverted and its id, name and priority kept |
| Updates.ToggleTaskUnique | src/App.jsx:77-83 | with unique ids, a confirmed toggle inverts `completed` of exactly the record with the id and keeps the ids unique |
| Updates.ToggleTaskTwice | src/App.jsx:77-83 | with unique ids, two confirmed toggles of one id restore the collection |
| Updates.EditTask | src/App.jsx:185-196 | the length is unchanged; a rejected call, or an id that is not present, changes nothing; records with other ids stay in place; on success each record with the id gets the new name and priority and keeps the id and the found record's `completed` |
| Updates.EditedRecord | src/App.jsx:186-187 | the record put on edit has the id, the new name and the new priority, and the `completed` of the first record with the id |
| Updates.EditTaskUnique | src/App.jsx:185-191 | with unique ids, a confirmed edit changes exactly the record with the id, only in name and priority, and keeps the ids unique |
| Updates.EditTaskIdempotent | src/App.jsx:185-191 | repeating a confirmed edit with the same values changes nothing more, and an edit neither adds nor removes the id |
| Updates.DeleteTask | src/App.jsx:96-109 | any reply except status 200 leaves the collection unchanged; on 200 the result is no longer, holds only records of the collection whose id differs, and keeps every record whose id differs |
| Updates.DeleteTaskRemovesExactly | src/App.jsx:96-109 | any reply except status 200 leaves the collection unchanged; status 200 gives an order-preserving subsequence holding exactly the records with other ids |
| Updates.DeleteTaskCount | src/App.jsx:100-101 | a confirmed delete shortens the collection by the number of records with the id: by one with unique ids and the id present, by none when it is absent; ids stay unique |
| Updates.OnlyMatch | src/App.jsx:101 | with unique ids, the records with a present id are that one record |
| Updates.NoMatch | src/App.jsx:101 | a collection without the id has no record to remove |
| Heading.DecimalText | src/App.jsx:167 | the printed count is a non-empty string of decimal digits with no leading zero unless the count is zero |
| Heading.DecimalRoundTrip | src/App.jsx:167 | reading the printed count back gives the count |
| Heading.TasksNoun | src/App.jsx:166 | the noun is "task" exactly when the count is 1, and "tasks" otherwise |
| Heading.HeadingText | src/App.jsx:166-167 | the heading starts with the printed count and a space and ends with " remaining"; for a count of 1 it is "1 task remaining", for any other count `n` it is "`n` tasks remaining" |
| Heading.PrioHeadingText | src/App.jsx:166-169 | the priority heading starts with the printed count and a space and ends with " priority"; for a count of 1 it is "1 task `filterPrio` priority", for any other count `n` it is "`n` tasks `filterPrio` priority" |
| Heading.CountPrefixDetermines | src/App.jsx:167-169 | a text that starts with a printed count followed by a space tells which count was printed |
| Heading.HeadingDeterminesCount | src/App.jsx:167 | two different visible counts never give the same heading |
| Heading.PrioHeadingDeterminesCount | src/App.jsx:169 | the priority heading also determines the visible count, whatever the priority names |
| Heading.HeadingNamesOneCount | src/App.jsx:166-169 | each heading is made from exactly one count: equal headings (with the same priority name) mean equal counts |
| Heading.ListHeading | src/App.jsx:166-167 | the heading the page shows names the length of the visible list of lines 111-113 and no other count |
| Heading.ListPrioHeading | src/App.jsx:166-169 | the priority heading the page shows names the length of the visible list of lines 111-113 and no other count |
| Heading.NonArrayHeading | src/App.jsx:166-167 | a `tasks` value that is not an array, shown as `[]` at line 126, gives the heading "0 tasks remaining" |
| Heading.NonArrayPrioHeading | src/App.jsx:166-169 | a `tasks` value that is not an array, shown as `[]` at line 126, gives the priority heading "0 tasks `filterPrio` priority" |
| Heading.ZeroHeadings | src/App.jsx:166-169 | no visible record gives "0 tasks remaining" and "0 tasks `filterPrio` priority" |
| Heading.ActiveCountExample | src/App.jsx:111-113 | three records, one of them completed: the `Active` view counts two |
| Heading.ActiveHeadingExample | src/App.jsx:166-167 | for those three records under `Active`, the heading reads "2 tasks remaining" |
| Heading.TwoTasksHeading | src/App.jsx:166-167 | the heading for two records is "2 tasks remaining" |
| Heading.HeadingFocus | src/App.jsx:198-202 | focus moves only when there is a previous length and the current length is below it; never on the first render |
| Heading.NoFocusAfterAddToggleEdit | src/App.jsx:198-202 | adding, toggling and editing (of a present or an absent id) never shorten the collection, so they never move focus to the heading |
| Heading.FocusAfterDelete | src/App.jsx:198-202 | a delete moves focus to the heading exactly when the store answered 200 and a record with the id was present |

## Left out

- The HTTP calls (GET, POST, PUT and DELETE through axios) and their `console.log` and `console.error` reporting are not modelled. Each call's outcome is a `Reply` parameter.
- The initial fetch (`useEffect` with GET) is not modelled as a transition. Its only effect is that `tasks` may hold whatever the server sent. `TasksValue.NonArrayValue` covers that for the view.
- The transitions on a `tasks` value that is not an array are not modelled: `find`, `map`, `filter` and spread throw on such a value in the source.
- The initial filter selection from props (`props.filter || 'All'`) is not modelled. It is a React prop default.
- `usePrevious`, `useRef`, `useEffect` and the DOM focus call are not modelled. Only the length comparison is kept, as `Heading.HeadingFocus`. The second effect at lines 204-208 uses the same test.
- JSX rendering, the theme context and the button colour lookup are not modelled. `constants` and `Theme.jsx` are not part of this model.
- The presentational components (TaskForm, Todo, PriorityList, the filter buttons, Header) and `main.jsx` are not modelled. They hold no state logic of the collection.
- Concurrent in-flight requests and stale closures are not modelled. Each transition uses the collection as it was when the call was made, and calls are applied one at a time.
- JavaScript's loose inequality in `name != ""` is modelled as string inequality. Names always come from the form as strings.
