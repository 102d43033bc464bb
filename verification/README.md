# Task-runner panel reducer and debugger scopes store, in Dafny

This project models two small state machines of the Nuclide editor packages
and proves what they promise.

**The task-runner panel reducer** (`pkg/nuclide-task-runner/lib/redux/Reducers.js`).
`Reducers.App` is the pure, total transition function `app(state, action)` of the
panel's store. It keeps a registry of task runners and one published task list per
runner, both insertion-ordered JavaScript `Map`s. It also keeps the active task, a
"previous session" slot that remembers a selection lost when its runner went away,
and the status of the running task. After each change to the lists, either the
pending task is restored (the restore branch of TASK_LIST_UPDATED) or
`Reducers.ValidateActiveTask` runs: it keeps a valid active task, and otherwise
falls back to the first task in insertion order and remembers the lost selection. The first
remembered value wins. The source's two loops, `activeTaskIsValid` and
`getFirstTask`, are modelled as methods and proved equal to declarative definitions.

A `Map` is modelled as `OrderedMaps.OrderedMap`: a sequence of key/value pairs with
distinct keys. `Set` on a present key keeps its position, `Set` on a new key appends,
and `Delete` removes the pair and keeps the others in order.

**The debugger scopes store** (`pkg/nuclide-debugger/lib/ScopesStore.js`). Without
its dispatcher and observable plumbing, the store is a sequence of scope sections
that starts empty. Two actions reset it, an update appends one section, and every
other action is ignored.

Files: `wrappers.dfy` (nullable values), `ordered_map.dfy`, `task_runner_types.dfy`
(state and actions), `reducers.dfy` (the reducer), `reducer_properties.dfy` (lemmas
about single actions and runs of actions), `scopes_store.dfy`.

Facts about the code that shape the model:

- The reducer has no case for nuclide-buck's build-root, build-target, rule-type or
  platform actions. `pkg/nuclide-buck/lib/redux/Epics.js` reads those from its own
  store, so this state has no such fields. Such actions reach the reducer's default
  and leave the state unchanged.
- The active task is not valid in every reachable state. Selecting a task and
  registering a runner do not revalidate. `ReducerProperties.SelectTaskSkipsValidation`
  shows the first of these. Validity is proved only after unregistering a runner or
  publishing a list.
- Progress that arrives with no status creates a status whose `info` is absent. This
  comes from spreading `null` in `{...state.taskStatus, progress}`.
- `activeTaskIsValid` searches every list for a task stamped with the active runner's
  id, not only the list stored under that id. The model does the same.
  `ReducerProperties.WellStampedSearchAgrees` proves that the two searches agree when
  every list holds only tasks stamped with its own key. `ReducerProperties.ReachableSearchAgrees`
  proves the same for every state reached from `ReducerProperties.InitialState`,
  which has no runners, no lists and no active task but may hold the previous
  session's task in the pending slot.

## Model

| member | source | states |
|---|---|---|
| Reducers.App | pkg/nuclide-task-runner/lib/redux/Reducers.js:18-143 | only unregistering a runner and publishing a list change the task lists, and only registering and unregistering change the registry |
| ReducerProperties.AppKeepsWellStamped | pkg/nuclide-task-runner/lib/redux/Reducers.js:99-120 | every action keeps each task list stamped with the id of the runner it is stored under |
| ReducerProperties.ListActionsLeaveActiveValid | pkg/nuclide-task-runner/lib/redux/Reducers.js:99-138 | after unregistering a runner or publishing a list, the active task is unset or names a published task, on the restore path as well as after validation |
| ReducerProperties.UnrecognizedActionIsNoOp | pkg/nuclide-task-runner/lib/redux/Reducers.js:140-142 | an action type with no case returns a state equal to its input (the source returns the same object) |
| ReducerProperties.SelectTaskSetsActive | pkg/nuclide-task-runner/lib/redux/Reducers.js:33-40 | selecting makes the payload the active task and clears the pending restoration; no other field changes |
| ReducerProperties.SelectTaskSkipsValidation | pkg/nuclide-task-runner/lib/redux/Reducers.js:33-40 | selection is not validated: with no published task, the selected task is active although it names nothing |
| ReducerProperties.PanelActions | pkg/nuclide-task-runner/lib/redux/Reducers.js:20-32 | creating the panel stores its reference and destroying it clears the reference; nothing else changes |
| ReducerProperties.VisibilityAndRootActions | pkg/nuclide-task-runner/lib/redux/Reducers.js:79-91 | the toolbar-visibility and project-root actions each set their own field and change nothing else |
| ReducerProperties.TaskStartedResetsProgress | pkg/nuclide-task-runner/lib/redux/Reducers.js:63-72 | a start sets the status to its info with no progress; nothing else changes |
| ReducerProperties.TaskProgressKeepsInfo | pkg/nuclide-task-runner/lib/redux/Reducers.js:47-56 | progress always leaves a status carrying the new progress, with the previous info when a status existed and no info otherwise |
| ReducerProperties.TerminalActionsClearStatus | pkg/nuclide-task-runner/lib/redux/Reducers.js:41-78 | completion, error and stop each reset the status to null and change nothing else |
| ReducerProperties.ProgressRunKeepsInfo | pkg/nuclide-task-runner/lib/redux/Reducers.js:47-56 | a non-empty run of progress reports ends with a status holding the last report and the earlier status's info, or no info when there was no status; an empty run changes nothing |
| ReducerProperties.StatusLifecycle | pkg/nuclide-task-runner/lib/redux/Reducers.js:41-78 | start, progress reports, terminal: before the terminal action the status is the start's info with the latest progress; after it the status is null |
| ReducerProperties.RegisterTaskRunnerStores | pkg/nuclide-task-runner/lib/redux/Reducers.js:92-98 | the runner is stored under its id, overwriting any earlier one; every other id reads as before |
| ReducerProperties.RegisterTaskRunnerKeepsOrder | pkg/nuclide-task-runner/lib/redux/Reducers.js:92-98 | the id keeps its place when already registered and comes last otherwise; task lists, active and pending tasks and every other field are untouched |
| ReducerProperties.UnregisterTaskRunnerRemoves | pkg/nuclide-task-runner/lib/redux/Reducers.js:99-104 | the id leaves both registry and task lists in one step; every other entry keeps its value and relative order |
| ReducerProperties.UnregisterTaskRunnerRevalidates | pkg/nuclide-task-runner/lib/redux/Reducers.js:99-110 | unregistering is exactly the validation of the state with both maps pruned: the active task is unset or valid and is kept when still valid; otherwise the first remaining task replaces it and the lost one fills an empty pending slot; a pending restoration is never overwritten; panel, visibility, project root and status are untouched |
| ReducerProperties.TaskListUpdatedStamps | pkg/nuclide-task-runner/lib/redux/Reducers.js:111-119 | the stored list has the payload's length and order, each entry being the published task stamped with the runner id |
| ReducerProperties.TaskListUpdatedStores | pkg/nuclide-task-runner/lib/redux/Reducers.js:111-120 | publishing stores under the runner's id exactly the published list annotated with that id and the registered runner's name |
| ReducerProperties.RunnerNameIsRegisteredName | pkg/nuclide-task-runner/lib/redux/Reducers.js:113-114 | the stamped name is the name of the runner registered under the id, and absent when no runner is registered |
| ReducerProperties.TaskListUpdatedNamesRunner | pkg/nuclide-task-runner/lib/redux/Reducers.js:113-116 | each stored entry carries the name of the runner registered under the id, or no name when none is registered |
| ReducerProperties.TaskListUpdatedKeepsOthers | pkg/nuclide-task-runner/lib/redux/Reducers.js:117-120 | other runners' lists and the registry are unchanged; the published list keeps its position or is appended |
| ReducerProperties.TaskListUpdatedRestores | pkg/nuclide-task-runner/lib/redux/Reducers.js:122-138 | if the pending task belongs to this runner and the new list has its type, it becomes active, the pending slot is cleared and no field other than the task lists changes; otherwise the result is the validation of the state with the new lists |
| Reducers.ValidateActiveTask | pkg/nuclide-task-runner/lib/redux/Reducers.js:148-159 | identity when the active task is valid; otherwise the active task becomes the first task of the first non-empty list, or null exactly when all lists are empty; the result is always unset or valid; the pending slot keeps its first value and otherwise takes the lost active task; no other field changes |
| Reducers.GetFirstTask | pkg/nuclide-task-runner/lib/redux/Reducers.js:180-189 | absent exactly when every list is empty; otherwise the head of the first non-empty list in insertion order |
| Reducers.ScanFirstTask | pkg/nuclide-task-runner/lib/redux/Reducers.js:180-189 | the source's early-return loop finds nothing exactly when every list is empty, and otherwise returns the head of the first non-empty list |
| Reducers.ScanActiveTaskIsValid | pkg/nuclide-task-runner/lib/redux/Reducers.js:164-178 | the source's nested early-return search answers true exactly when the active task is set and some list has a task stamped with its runner id and of its type |
| ReducerProperties.DispatchAllKeepsWellStamped | pkg/nuclide-task-runner/lib/redux/Reducers.js:111-120 | from a state whose lists are stamped with their own keys, every sequence of actions reaches such a state |
| ReducerProperties.WellStampedSearchAgrees | pkg/nuclide-task-runner/lib/redux/Reducers.js:164-178 | when every list holds only tasks stamped with its own key, the search over all lists finds a task exactly when the list stored under its runner id has a task of its type |
| ReducerProperties.ReachableSearchAgrees | pkg/nuclide-task-runner/lib/redux/Reducers.js:164-178 | in every state reached by any actions from the initial state, whatever task it starts with pending, the search over all lists agrees with the lookup of the list stored under the task's runner id |
| ReducerProperties.UnregisteredRunnerHasNoTasks | pkg/nuclide-task-runner/lib/redux/Reducers.js:99-110 | once a runner's list is deleted from well-stamped lists, no task of that runner is valid any more |
| ReducerProperties.UnregisterLosesSelection | pkg/nuclide-task-runner/lib/redux/Reducers.js:148-159 | selecting a task and then unregistering its runner loses the selection and remembers it in the pending slot |
| ReducerProperties.RepublishRestoresSelection | pkg/nuclide-task-runner/lib/redux/Reducers.js:122-136 | with the task pending, registering its runner and publishing a list with its type makes it active again and clears the pending slot |
| ReducerProperties.SessionRestoreRoundTrip | pkg/nuclide-task-runner/lib/redux/Reducers.js:122-157 | select, unregister, register, publish: the selection is first lost and remembered, then restored with nothing pending |
| OrderedMaps.Set | pkg/nuclide-task-runner/lib/redux/Reducers.js:96 | `Map.set` keeps the key order when the key is present and appends it otherwise; every pair of the result is the new pair or an old one |
| OrderedMaps.SetGet | pkg/nuclide-task-runner/lib/redux/Reducers.js:96 | after `set`, the key reads the new value and every other key reads as before |
| OrderedMaps.Delete | pkg/nuclide-task-runner/lib/redux/Reducers.js:101-104 | `Map.delete` removes exactly the pair holding the key and keeps the others in order; an absent key changes nothing |
| OrderedMaps.DeleteGet | pkg/nuclide-task-runner/lib/redux/Reducers.js:101-104 | after `delete`, the key is absent and every other key reads as before |
| OrderedMaps.Get | pkg/nuclide-task-runner/lib/redux/Reducers.js:113 | `Map.get` is absent exactly when no pair holds the key, and otherwise is the value of the pair holding it |
| ScopesStore.HandlePayload | pkg/nuclide-debugger/lib/ScopesStore.js:39-51 | clearing the interface and selecting a call frame reset the sections to empty; an update appends exactly its section after the unchanged earlier ones; any other action changes nothing |
| ScopesStore.HandleClearInterface | pkg/nuclide-debugger/lib/ScopesStore.js:53-55 | the sections become empty whatever they were |
| ScopesStore.HandleUpdateScopes | pkg/nuclide-debugger/lib/ScopesStore.js:57-63 | one more section, named and holding the update's variables, after the earlier ones unchanged and in order |
| ScopesStore.HandleAllWithoutReset | pkg/nuclide-debugger/lib/ScopesStore.js:39-63 | with no reset among them, handling actions appends the updates' sections in dispatch order to what the store held |
| ScopesStore.ResetThenUpdates | pkg/nuclide-debugger/lib/ScopesStore.js:41-63 | a reset followed by non-reset actions leaves exactly the updates' sections in dispatch order, whatever came before |
| ScopesStore.UpdatesFromEmpty | pkg/nuclide-debugger/lib/ScopesStore.js:36-63 | a new store given n updates holds exactly n sections, the i-th carrying the i-th update's name and variables |

## Left out

- `pkg/nuclide-buck/lib/redux/Epics.js` is not part of this model. Its pipelines cancel superseded asynchronous lookups of the build root, rule type and platforms. Those lookups are external promises and streams, so the model has no counterpart.
- `pkg/nuclide-hhvm-toolbar/lib/HhvmBuildSystem.js` is not part of this model. It wraps editor and stream APIs and loads its model dynamically.
- The scopes store's dispatcher registration, disposal and observable exposure are plumbing and are left out. The store's value is the plain sequence of sections.
- The panel reference, task info, progress, a runner's capabilities and a task's metadata other than its type are opaque types. The reducer only stores and forwards them. No arithmetic on progress is modelled.
- States are values, so object identity is not modelled. The source returns the very same state object for an action it has no case for (Reducers.js:142) and from `validateActiveTask` when the active task is valid (Reducers.js:149). Every other case builds a new object even when no field changes. Subscribers that compare states by reference can tell these apart; the model cannot, and "returns a state equal to its input" is the closest the model gets.
- `ReducerProperties.InitialState` is the state the panel starts in: no runners, no lists, no active task. The package's activation code that builds it, and that restores the previous session's task into the pending slot, is not part of this model, so its visibility, project root and pending task are parameters.
- The store's dispatch loop is modelled only as `ReducerProperties.DispatchAll`, a fold of the reducer over a sequence of actions. Subscribers are left out.
