# Task manager: task reducer, completed count and add guard

This project models the state logic of a single-page task manager (a React
app). The task list is an ordered sequence of tasks. Each task is a text plus
a `completed` flag. A task has no id; toggle and remove address it by its
position. The list changes only through a reducer, which maps
`(list, action)` to a new list. Three action types exist: `ADD_TASK`,
`TOGGLE_TASK` and `REMOVE_TASK`. Any other type leaves the list as it is.

The model has three modules:

- `TaskList` (`task_list.dfy`): `Task`, `Action`, the reducer `Reduce` and its
  arms (`ToggleAt` is the index-aware `map`, `RemoveAt` the index-aware
  `filter`), `Run` for a sequence of dispatches, and the "Completed Tasks"
  figure `CompletedCount`. Lemmas cover length bookkeeping, "nothing else
  changes", out-of-range no-ops, the toggle involution and how each action
  moves the count. They also prove a sample session: start empty, add
  "a", add "b", toggle 0, remove 1. The result is `[Task("a", true)]` and the
  count is 1.
- `AddForm` (`add_form.dfy`): JavaScript's `String.prototype.trim` over its
  white-space and line-terminator code points, and the "Add Task" click. The
  click dispatches one ADD carrying the *untrimmed* input and clears the box,
  but only when the trimmed input is non-empty.
- `Theme` (`theme.dfy`): the light/dark toggle of the theme provider.

The source is pure: new arrays come from spread, `map` and `filter`, and
nothing runs in a loop. So every operation is a function over `seq<Task>`
with lemmas beside it.

The reducer itself does not trim. The click handler tests `newTask.trim()`
but dispatches the untrimmed `newTask` (src/App.js:54-55), so a task's text
may keep leading or trailing white space. `AddForm.ClickAdd` states this.

## Model

| member | source | states |
|---|---|---|
| `TaskList.Flip` | src/App.js:14 | the flipped task keeps its text and has the negated `completed` flag |
| `TaskList.ToggleAt` | src/App.js:13-15 | same length; the task at the position equal to the index is flipped and every other task is unchanged (a negative or too-large index flips nothing) |
| `TaskList.RemoveAt` | src/App.js:17 | an in-range index gives `s[..i] + s[i+1..]`; any other index gives the list unchanged |
| `TaskList.Reduce` | src/App.js:8-21 | length grows by 1 on ADD, drops by 1 on REMOVE at an existing position, and is unchanged otherwise |
| `TaskList.Run` | src/App.js:8-21 | successive dispatches grow the list by at most one task per action |
| `TaskList.CompletedTasks` | src/App.js:40 | the filter keeps only done tasks, is no longer than the list, is a sub-multiset of it, and keeps every copy of every done task |
| `TaskList.CompletedCount` | src/App.js:40 | the completed count lies between 0 and the list length |
| `TaskList.AddAppends` | src/App.js:10-11 | ADD adds one task, `{text, completed: false}`, as the last element; all earlier tasks are unchanged |
| `TaskList.ToggleInRange` | src/App.js:12-15 | TOGGLE at an existing position keeps the length and that task's text, flips its flag, and leaves every other task identical |
| `TaskList.ToggleTwice` | src/App.js:13-15 | toggling the same position twice returns the original list, for every integer position |
| `TaskList.OutOfRangeIsNoOp` | src/App.js:13-17 | TOGGLE and REMOVE with a negative or too-large index return a list equal to the input |
| `TaskList.RemoveInRange` | src/App.js:16-17 | REMOVE at an existing position gives `s[..i] + s[i+1..]`; length drops by 1; earlier tasks keep their positions and later ones move up by one; exactly one copy of the removed task leaves the multiset, even with duplicate tasks |
| `TaskList.RunConcat` | src/App.js:8-21 | dispatching two batches one after the other equals dispatching their concatenation (a property of the dispatch sequence, true of any reducer) |
| `TaskList.UnknownInRunIsNoOp` | src/App.js:18-19 | inserting an action with an unrecognised type anywhere into a sequence of dispatches does not change the resulting list |
| `TaskList.UnknownIsNoOp` | src/App.js:18-19 | an action with an unrecognised type returns the list unchanged |
| `TaskList.CompletedTasksConcat` | src/App.js:40 | the completed-filter of a concatenation is the concatenation of the filters |
| `TaskList.PositionsSnoc` | src/App.js:40 | appending a task adds its position to the set of done positions exactly when it is done |
| `TaskList.CountIsCompletedPositions` | src/App.js:40 | the completed count equals the number of positions that hold a done task |
| `TaskList.CountOfOne` | src/App.js:40 | a single task counts 1 when done and 0 otherwise |
| `TaskList.CountAround` | src/App.js:40 | the count is the count before a position, plus that task's contribution, plus the count after it |
| `TaskList.AddKeepsCount` | src/App.js:10-11 | ADD never changes the completed count |
| `TaskList.ToggleChangesCountByOne` | src/App.js:12-15 | TOGGLE at an existing position changes the count by exactly -1 (task was done) or +1 (task was not done) |
| `TaskList.RemoveChangesCount` | src/App.js:16-17 | REMOVE at an existing position lowers the count by 1 exactly when the removed task was done |
| `TaskList.SampleSession` | src/App.js:8-21 | from an empty list, add "a", add "b", toggle 0 and remove 1 gives `[Task("a", true)]`, with completed count 1 |
| `AddForm.TrimStart` | src/App.js:54 | the result is a suffix of the input with no leading white space, and everything removed is white space |
| `AddForm.TrimEnd` | src/App.js:54 | the result is a prefix of the input with no trailing white space, and everything removed is white space |
| `AddForm.Trim` | src/App.js:54 | `trim()` returns a slice of the input with only white space on either side of it, and the slice is empty or starts and ends with a non-white-space character |
| `AddForm.InnerSliceOfSuffix` | src/App.js:54 | stripping white space from the front and then from the back leaves a slice of the input with only white space around it |
| `AddForm.TrimEmptyIffBlank` | src/App.js:54 | `input.trim()` is empty (falsy) if and only if every character of the input is white space |
| `AddForm.ClickAdd` | src/App.js:53-57 | input with a visible character: exactly one task `{input, false}` is appended (the untrimmed input) and the box is cleared; blank input: tasks and box unchanged |
| `AddForm.ClickAddKeepsCount` | src/App.js:53-57 | a click on "Add Task" never changes the completed count |
| `Theme.ToggleTheme` | src/App.js:86-88 | the next theme is always "light" or "dark", and it is "dark" exactly when the previous one was "light" |
| `Theme.ToggleThemeTwice` | src/App.js:87 | from "light" or "dark", two toggles return to the starting theme |

## Left out

- Persistence (src/App.js:24-26, 32-34) is browser I/O plus JSON
  serialisation: reading `localStorage` at startup and writing it after every
  change. It is not modelled. In the code, a missing key, or any stored
  value that parses to a falsy value (`null`, `false`, `0`, `""`), falls
  back to `[]` (src/App.js:25). Malformed stored data makes `JSON.parse`
  throw, because nothing catches it. So no "corrupt data gives an empty
  list" rule and no JSON round trip are claimed.
- React hook mechanics are library behaviour and are not modelled. This
  covers `useReducer`, `useState`, `useEffect`, `useRef` and `useMemo`
  scheduling, and re-rendering. `Run` stands for dispatches applied in order;
  `Form` holds the list and the text box together.
- Input focus (src/App.js:36-38) is a DOM side effect and is not modelled.
- JSX rendering, list keys and styling (src/App.js:42-79) are presentation
  only. The theme context wiring (src/App.js:5, 83-99) is not modelled;
  only the toggle mapping at line 87 is.
- Action payloads: `Toggle` and `Remove` carry an integer index. In
  JavaScript, a payload of another type (a string "0", or 0.5) is never
  `===` to any index. Such an action is a no-op there. This is the same
  outcome as an out-of-range integer, but the model has no such values. An
  ADD payload is modelled as a string.
- Extra properties on a task object are not modelled. A task restored from
  storage may carry other fields, which the spread at line 14 would keep.
  `Task` has only `text` and `completed`.
- `AddForm.IsWhiteSpace` works on Unicode scalar values. JavaScript strings
  are UTF-16 code units. No white-space character lies outside the Basic
  Multilingual Plane, so `trim` behaves the same either way.
