/**
  What the reducer promises, action by action, and over runs of actions
  dispatched one after another.
 */
module ReducerProperties {
  import opened Wrappers
  import opened OrderedMaps
  import opened TaskRunnerTypes
  import opened Reducers

  /** The store applying the reducer to each dispatched action in turn. */
  function DispatchAll(s: AppState, actions: seq<Action>): (r: AppState)
    decreases |actions|
  {
    if |actions| == 0 then s else DispatchAll(App(s, actions[0]), actions[1..])
  }

  lemma {:induction false} DispatchAllSnoc(s: AppState, actions: seq<Action>, a: Action)
    ensures DispatchAll(s, actions + [a]) == App(DispatchAll(s, actions), a)
    decreases |actions|
  {
    if |actions| > 0 {
      assert (actions + [a])[1..] == actions[1..] + [a];
      DispatchAllSnoc(App(s, actions[0]), actions[1..], a);
    }
  }

  /** An action type the reducer has no case for returns the state itself. */
  lemma UnrecognizedActionIsNoOp(s: AppState, actionType: string)
    ensures App(s, Unrecognized(actionType)) == s
  {
  }

  /** Selecting a task makes it active and drops the pending restoration; nothing else changes. */
  lemma SelectTaskSetsActive(s: AppState, taskId: TaskId)
    ensures App(s, SelectTask(taskId)).activeTaskId == Some(taskId)
    ensures App(s, SelectTask(taskId)).previousSessionActiveTaskId.None?
    ensures App(s, SelectTask(taskId)).(activeTaskId := s.activeTaskId,
      previousSessionActiveTaskId := s.previousSessionActiveTaskId) == s
  {
  }

  /**
    Selection is not validated: with no published task, selecting any task
    leaves an active task that names nothing. So "the active task is always
    unset or valid" does not hold of every reachable state.
   */
  lemma SelectTaskSkipsValidation(s: AppState, taskId: TaskId)
    requires AllListsEmpty(s.taskLists)
    ensures !ActiveIsNullOrValid(App(s, SelectTask(taskId)))
  {
  }

  /** Creating the panel stores its reference and destroying it clears it; nothing else changes. */
  lemma PanelActions(s: AppState, panel: Panel)
    ensures App(s, PanelCreated(panel)).panel == Some(panel)
    ensures App(s, PanelCreated(panel)).(panel := s.panel) == s
    ensures App(s, PanelDestroyed).panel.None?
    ensures App(s, PanelDestroyed).(panel := s.panel) == s
  {
  }

  /** The visibility and project-root actions each set their own field and nothing else. */
  lemma VisibilityAndRootActions(s: AppState, visible: bool, projectRoot: Option<string>)
    ensures App(s, ToolbarVisibilityUpdated(visible)).visible == visible
    ensures App(s, ToolbarVisibilityUpdated(visible)).(visible := s.visible) == s
    ensures App(s, SetProjectRoot(projectRoot)).projectRoot == projectRoot
    ensures App(s, SetProjectRoot(projectRoot)).(projectRoot := s.projectRoot) == s
  {
  }

  /** A start records its info with no progress yet. */
  lemma TaskStartedResetsProgress(s: AppState, info: TaskInfo)
    ensures App(s, TaskStarted(info)).taskStatus == Some(TaskStatus(Some(info), None))
    ensures App(s, TaskStarted(info)).(taskStatus := s.taskStatus) == s
  {
  }

  /** Progress always leaves a status holding it, and keeps the info of an existing status. */
  lemma TaskProgressKeepsInfo(s: AppState, progress: Option<Progress>)
    ensures App(s, TaskProgress(progress)).taskStatus.Some?
    ensures App(s, TaskProgress(progress)).taskStatus.value.progress == progress
    ensures s.taskStatus.Some? ==> App(s, TaskProgress(progress)).taskStatus.value.info == s.taskStatus.value.info
    ensures s.taskStatus.None? ==> App(s, TaskProgress(progress)).taskStatus.value.info.None?
    ensures App(s, TaskProgress(progress)).(taskStatus := s.taskStatus) == s
  {
  }

  predicate IsTerminal(a: Action) {
    a.TaskCompleted? || a.TaskErrored? || a.TaskStopped?
  }

  /** Completion, failure and stop each clear the status and change nothing else. */
  lemma TerminalActionsClearStatus(s: AppState, a: Action)
    requires IsTerminal(a)
    ensures App(s, a).taskStatus.None?
    ensures App(s, a).(taskStatus := s.taskStatus) == s
  {
  }

  function ProgressActions(ps: seq<Option<Progress>>): (r: seq<Action>)
  {
    seq(|ps|, i requires 0 <= i < |ps| => TaskProgress(ps[i]))
  }

  /**
    A run of progress reports ends with a status holding the last report and
    the info of the status before the run, or no info when there was none.
   */
  lemma {:induction false} ProgressRunKeepsInfo(s: AppState, ps: seq<Option<Progress>>)
    ensures |ps| == 0 ==> DispatchAll(s, ProgressActions(ps)).taskStatus == s.taskStatus
    ensures |ps| > 0 ==>
      (DispatchAll(s, ProgressActions(ps)).taskStatus ==
       Some(TaskStatus(if s.taskStatus.Some? then s.taskStatus.value.info else None, ps[|ps| - 1])))
    decreases |ps|
  {
    if |ps| > 0 {
      var s1 := App(s, TaskProgress(ps[0]));
      assert s1.taskStatus == Some(TaskStatus(if s.taskStatus.Some? then s.taskStatus.value.info else None, ps[0]));
      assert ProgressActions(ps)[1..] == ProgressActions(ps[1..]);
      ProgressRunKeepsInfo(s1, ps[1..]);
    }
  }

  /**
    The status lifecycle: start, any number of progress reports, then a
    terminal action. Before the terminal action the status holds the start's
    info and the latest progress; after it nothing of either is retained.
   */
  lemma StatusLifecycle(s: AppState, info: TaskInfo, ps: seq<Option<Progress>>, terminal: Action)
    requires IsTerminal(terminal)
    ensures DispatchAll(s, [TaskStarted(info)] + ProgressActions(ps)).taskStatus ==
      Some(TaskStatus(Some(info), if |ps| == 0 then None else ps[|ps| - 1]))
    ensures DispatchAll(s, [TaskStarted(info)] + ProgressActions(ps) + [terminal]).taskStatus.None?
  {
    var run := [TaskStarted(info)] + ProgressActions(ps);
    assert run[1..] == ProgressActions(ps);
    ProgressRunKeepsInfo(App(s, TaskStarted(info)), ps);
    DispatchAllSnoc(s, run, terminal);
  }

  /** Registering a runner stores it under its id; every other id reads as before. */
  lemma RegisterTaskRunnerStores(s: AppState, runner: TaskRunner)
    ensures Get(App(s, RegisterTaskRunner(runner)).taskRunners, runner.id) == Some(runner)
    ensures forall k :: k != runner.id ==> Get(App(s, RegisterTaskRunner(runner)).taskRunners, k) == Get(s.taskRunners, k)
  {
    var r := App(s, RegisterTaskRunner(runner));
    assert r.taskRunners == Set(s.taskRunners, runner.id, runner);
    SetGet(s.taskRunners, runner.id, runner, runner.id);
    forall k | k != runner.id ensures Get(r.taskRunners, k) == Get(s.taskRunners, k) {
      SetGet(s.taskRunners, runner.id, runner, k);
    }
  }

  /**
    A registered runner keeps its place when its id was already registered
    and comes last otherwise; task lists and the active and pending tasks
    are untouched.
   */
  lemma RegisterTaskRunnerKeepsOrder(s: AppState, runner: TaskRunner)
    ensures Keys(App(s, RegisterTaskRunner(runner)).taskRunners) ==
      if HasKey(s.taskRunners, runner.id) then Keys(s.taskRunners) else Keys(s.taskRunners) + [runner.id]
    ensures App(s, RegisterTaskRunner(runner)).(taskRunners := s.taskRunners) == s
  {
  }

  /**
    Unregistering removes the id from both the registry and the task lists
    in one step and keeps every other entry, with its value, in its
    relative order.
   */
  lemma UnregisterTaskRunnerRemoves(s: AppState, id: string)
    ensures var r := App(s, UnregisterTaskRunner(id));
      !HasKey(r.taskRunners, id) && !HasKey(r.taskLists, id)
    ensures var r := App(s, UnregisterTaskRunner(id));
      forall k :: k != id ==> Get(r.taskRunners, k) == Get(s.taskRunners, k) && Get(r.taskLists, k) == Get(s.taskLists, k)
    ensures var r := App(s, UnregisterTaskRunner(id));
      forall i :: 0 <= i < |s.taskRunners| && s.taskRunners[i].0 == id ==>
        r.taskRunners == s.taskRunners[..i] + s.taskRunners[i + 1..]
    ensures var r := App(s, UnregisterTaskRunner(id));
      forall i :: 0 <= i < |s.taskLists| && s.taskLists[i].0 == id ==>
        r.taskLists == s.taskLists[..i] + s.taskLists[i + 1..]
  {
    var r := App(s, UnregisterTaskRunner(id));
    assert r.taskRunners == Delete(s.taskRunners, id) && r.taskLists == Delete(s.taskLists, id);
    DeleteGet(s.taskRunners, id, id);
    DeleteGet(s.taskLists, id, id);
    forall k | k != id ensures Get(r.taskRunners, k) == Get(s.taskRunners, k) && Get(r.taskLists, k) == Get(s.taskLists, k) {
      DeleteGet(s.taskRunners, id, k);
      DeleteGet(s.taskLists, id, k);
    }
  }

  /**
    After unregistering, the usual validation runs on the pruned maps: the
    active task is unset or valid, it is kept when still valid, and a
    pending restoration is never overwritten. Panel, visibility, project
    root and status are untouched.
   */
  lemma UnregisterTaskRunnerRevalidates(s: AppState, id: string)
    ensures App(s, UnregisterTaskRunner(id))
      == ValidateActiveTask(s.(taskRunners := Delete(s.taskRunners, id), taskLists := Delete(s.taskLists, id)))
    ensures ActiveIsNullOrValid(App(s, UnregisterTaskRunner(id)))
    ensures var r := App(s, UnregisterTaskRunner(id));
      s.activeTaskId.Some? && ListsContain(r.taskLists, s.activeTaskId.value) ==>
        r.activeTaskId == s.activeTaskId && r.previousSessionActiveTaskId == s.previousSessionActiveTaskId
    ensures var r := App(s, UnregisterTaskRunner(id));
      s.previousSessionActiveTaskId.Some? ==> r.previousSessionActiveTaskId == s.previousSessionActiveTaskId
    ensures var r := App(s, UnregisterTaskRunner(id));
      r.(taskRunners := s.taskRunners, taskLists := s.taskLists, activeTaskId := s.activeTaskId,
         previousSessionActiveTaskId := s.previousSessionActiveTaskId) == s
  {
    var pruned := s.(taskRunners := Delete(s.taskRunners, id), taskLists := Delete(s.taskLists, id));
    assert App(s, UnregisterTaskRunner(id)) == ValidateActiveTask(pruned);
  }

  /**
    Publishing a list stores, under the runner's id, a list of the same
    length and order whose entries are the published ones stamped with that
    id.
   */
  lemma TaskListUpdatedStamps(s: AppState, taskList: seq<TaskMetadata>, id: string)
    ensures var stored := Get(App(s, TaskListUpdated(taskList, id)).taskLists, id);
      stored.Some? && |stored.value| == |taskList|
      && forall j :: 0 <= j < |taskList| ==> stored.value[j].meta == taskList[j] && stored.value[j].taskRunnerId == id
  {
    TaskListUpdatedStores(s, taskList, id);
  }

  /** The name stamped on a published list is the registered runner's name, or absent. */
  lemma RunnerNameIsRegisteredName(runners: OrderedMap<string, TaskRunner>, id: string)
    ensures forall i :: 0 <= i < |runners| && runners[i].0 == id ==> RunnerName(runners, id) == Some(runners[i].1.name)
    ensures !HasKey(runners, id) ==> RunnerName(runners, id).None?
  {
  }

  /** The list stored by publishing is the published list annotated with the runner's id and name. */
  lemma TaskListUpdatedStores(s: AppState, taskList: seq<TaskMetadata>, id: string)
    ensures Get(App(s, TaskListUpdated(taskList, id)).taskLists, id)
      == Some(Annotate(taskList, id, RunnerName(s.taskRunners, id)))
  {
    var annotated := Annotate(taskList, id, RunnerName(s.taskRunners, id));
    assert App(s, TaskListUpdated(taskList, id)).taskLists == Set(s.taskLists, id, annotated);
    SetGet(s.taskLists, id, annotated, id);
  }

  /**
    Each entry of a published list carries the name of the runner
    registered under the list's id, or no name when none is registered.
   */
  lemma TaskListUpdatedNamesRunner(s: AppState, taskList: seq<TaskMetadata>, id: string)
    ensures var stored := Get(App(s, TaskListUpdated(taskList, id)).taskLists, id);
      stored.Some? &&
      forall i, j :: 0 <= i < |s.taskRunners| && s.taskRunners[i].0 == id && 0 <= j < |stored.value| ==>
        stored.value[j].taskRunnerName == Some(s.taskRunners[i].1.name)
    ensures var stored := Get(App(s, TaskListUpdated(taskList, id)).taskLists, id);
      stored.Some? && (!HasKey(s.taskRunners, id) ==> forall j :: 0 <= j < |stored.value| ==> stored.value[j].taskRunnerName.None?)
  {
    TaskListUpdatedStores(s, taskList, id);
    RunnerNameIsRegisteredName(s.taskRunners, id);
  }

  /**
    Publishing a list leaves the other runners' lists and the registry
    unchanged; the list keeps its position when the runner had one, and is
    appended otherwise.
   */
  lemma TaskListUpdatedKeepsOthers(s: AppState, taskList: seq<TaskMetadata>, id: string)
    ensures forall k :: k != id ==> Get(App(s, TaskListUpdated(taskList, id)).taskLists, k) == Get(s.taskLists, k)
    ensures Keys(App(s, TaskListUpdated(taskList, id)).taskLists) ==
      if HasKey(s.taskLists, id) then Keys(s.taskLists) else Keys(s.taskLists) + [id]
    ensures App(s, TaskListUpdated(taskList, id)).taskRunners == s.taskRunners
  {
    var annotated := Annotate(taskList, id, RunnerName(s.taskRunners, id));
    var r := App(s, TaskListUpdated(taskList, id));
    assert r.taskLists == Set(s.taskLists, id, annotated);
    forall k | k != id ensures Get(r.taskLists, k) == Get(s.taskLists, k) {
      SetGet(s.taskLists, id, annotated, k);
    }
  }

  /**
    Publishing restores the pending task when it belongs to the publishing
    runner and the new list has its type: it becomes active, nothing is
    pending any more, and apart from the new list no other field changes.
    Otherwise the usual validation runs on the new lists.
   */
  lemma TaskListUpdatedRestores(s: AppState, taskList: seq<TaskMetadata>, id: string)
    ensures var prev := s.previousSessionActiveTaskId;
      var r := App(s, TaskListUpdated(taskList, id));
      prev.Some? && prev.value.taskRunnerId == id
      && (exists j :: 0 <= j < |taskList| && taskList[j].taskType == prev.value.taskType) ==>
        r.activeTaskId == prev && r.previousSessionActiveTaskId.None?
        && r == s.(taskLists := r.taskLists, activeTaskId := prev, previousSessionActiveTaskId := None)
    ensures var prev := s.previousSessionActiveTaskId;
      var r := App(s, TaskListUpdated(taskList, id));
      !(prev.Some? && prev.value.taskRunnerId == id
        && (exists j :: 0 <= j < |taskList| && taskList[j].taskType == prev.value.taskType)) ==>
        r == ValidateActiveTask(s.(taskLists := r.taskLists))
  {
    var annotated := Annotate(taskList, id, RunnerName(s.taskRunners, id));
    var prev := s.previousSessionActiveTaskId;
    if prev.Some? && prev.value.taskRunnerId == id {
      if exists j :: 0 <= j < |taskList| && taskList[j].taskType == prev.value.taskType {
        var j :| 0 <= j < |taskList| && taskList[j].taskType == prev.value.taskType;
        assert annotated[j].meta.taskType == prev.value.taskType;
      } else {
        assert !HasTaskType(annotated, prev.value.taskType);
      }
    }
  }

  /** Every action keeps each task list stamped with the id of the runner it is stored under. */
  lemma AppKeepsWellStamped(s: AppState, a: Action)
    requires WellStamped(s.taskLists)
    ensures WellStamped(App(s, a).taskLists)
  {
    match a
    case UnregisterTaskRunner(id) =>
      DeleteKeepsWellStamped(s.taskLists, id);
    case TaskListUpdated(taskList, id) =>
      var annotated := Annotate(taskList, id, RunnerName(s.taskRunners, id));
      SetKeepsWellStamped(s.taskLists, id, annotated);
    case _ =>
  }

  /**
    The two actions that change the task lists leave the active task unset
    or naming a published task.
   */
  lemma ListActionsLeaveActiveValid(s: AppState, a: Action)
    requires a.UnregisterTaskRunner? || a.TaskListUpdated?
    ensures ActiveIsNullOrValid(App(s, a))
  {
    match a
    case UnregisterTaskRunner(id) =>
    case TaskListUpdated(taskList, id) =>
      var annotated := Annotate(taskList, id, RunnerName(s.taskRunners, id));
      var prev := s.previousSessionActiveTaskId;
      if prev.Some? && id == prev.value.taskRunnerId && HasTaskType(annotated, prev.value.taskType) {
        PublishedListContains(s.taskLists, id, annotated, prev.value);
      }
  }

  /** Every state reached from a well-stamped one keeps each list stamped with its own runner's id. */
  lemma {:induction false} DispatchAllKeepsWellStamped(s: AppState, actions: seq<Action>)
    requires WellStamped(s.taskLists)
    ensures WellStamped(DispatchAll(s, actions).taskLists)
    decreases |actions|
  {
    if |actions| > 0 {
      AppKeepsWellStamped(s, actions[0]);
      DispatchAllKeepsWellStamped(App(s, actions[0]), actions[1..]);
    }
  }

  /**
    In well-stamped lists, searching every list for a task (as the source
    does) finds it exactly when the list stored under the task's runner id
    has a task of its type.
   */
  lemma WellStampedSearchAgrees(lists: TaskLists, id: TaskId)
    requires WellStamped(lists)
    ensures ListsContain(lists, id) <==>
      (Get(lists, id.taskRunnerId).Some? && HasTaskType(Get(lists, id.taskRunnerId).value, id.taskType))
  {
    var k := id.taskRunnerId;
    if ListsContain(lists, id) {
      var i, j :| 0 <= i < |lists| && 0 <= j < |lists[i].1|
        && lists[i].1[j].taskRunnerId == k && lists[i].1[j].meta.taskType == id.taskType;
      assert lists[i].0 == k;
      assert Get(lists, k) == Some(lists[i].1);
    }
    if Get(lists, k).Some? && HasTaskType(Get(lists, k).value, id.taskType) {
      var i :| 0 <= i < |lists| && lists[i].0 == k;
      var j :| 0 <= j < |lists[i].1| && lists[i].1[j].meta.taskType == id.taskType;
      assert lists[i].1[j].taskRunnerId == k;
    }
  }

  /**
    The state a panel starts in: no runner registered, no list published,
    no active task, no status and no panel. The pending slot may already
    hold the task restored from the user's previous session.
   */
  function InitialState(visible: bool, projectRoot: Option<string>, pending: Option<TaskId>): (r: AppState) {
    AppState(None, visible, projectRoot, [], [], None, pending, None)
  }

  /**
    In every state reached from the initial one, searching every list for a
    task agrees with looking in the list stored under its runner id.
   */
  lemma ReachableSearchAgrees(visible: bool, projectRoot: Option<string>, pending: Option<TaskId>,
                              actions: seq<Action>, id: TaskId)
    ensures var lists := DispatchAll(InitialState(visible, projectRoot, pending), actions).taskLists;
      ListsContain(lists, id) <==>
        (Get(lists, id.taskRunnerId).Some? && HasTaskType(Get(lists, id.taskRunnerId).value, id.taskType))
  {
    var s0 := InitialState(visible, projectRoot, pending);
    DispatchAllKeepsWellStamped(s0, actions);
    WellStampedSearchAgrees(DispatchAll(s0, actions).taskLists, id);
  }

  /** In well-stamped lists, a task of runner `id` can only sit in the list stored under `id`. */
  lemma UnregisteredRunnerHasNoTasks(lists: TaskLists, id: string, task: TaskId)
    requires WellStamped(lists) && task.taskRunnerId == id
    ensures !ListsContain(Delete(lists, id), task)
  {
    var r: seq<(string, seq<AnnotatedTask>)> := Delete(lists, id);
    DeleteKeepsWellStamped(lists, id);
    DeleteGet(lists, id, id);
    assert forall i, j :: 0 <= i < |r| && 0 <= j < |r[i].1| ==> r[i].1[j].taskRunnerId != id;
  }

  /** Unregistering the runner of the selected task loses the selection and remembers it. */
  lemma UnregisterLosesSelection(s: AppState, task: TaskId)
    requires WellStamped(s.taskLists)
    ensures var lost := App(App(s, SelectTask(task)), UnregisterTaskRunner(task.taskRunnerId));
      lost.activeTaskId != Some(task) && lost.previousSessionActiveTaskId == Some(task)
  {
    var s1 := App(s, SelectTask(task));
    UnregisteredRunnerHasNoTasks(s1.taskLists, task.taskRunnerId, task);
  }

  /** Re-registering the runner and publishing a list with the pending task's type restores it. */
  lemma RepublishRestoresSelection(s: AppState, task: TaskId, runner: TaskRunner, taskList: seq<TaskMetadata>)
    requires s.previousSessionActiveTaskId == Some(task)
    requires runner.id == task.taskRunnerId
    requires exists j :: 0 <= j < |taskList| && taskList[j].taskType == task.taskType
    ensures var back := App(App(s, RegisterTaskRunner(runner)), TaskListUpdated(taskList, runner.id));
      back.activeTaskId == Some(task) && back.previousSessionActiveTaskId.None?
  {
    var s3 := App(s, RegisterTaskRunner(runner));
    assert s3.previousSessionActiveTaskId == Some(task);
    TaskListUpdatedRestores(s3, taskList, runner.id);
  }

  lemma DispatchAllCons(s: AppState, a: Action, rest: seq<Action>)
    ensures DispatchAll(s, [a] + rest) == DispatchAll(App(s, a), rest)
  {
    assert ([a] + rest)[1..] == rest;
  }

  /**
    Session restoration round trip: select a task, unregister its runner
    (the selection is lost and remembered), register the runner again and
    publish a list that has the task's type: the selection is back and
    nothing is pending.
   */
  lemma SessionRestoreRoundTrip(s: AppState, task: TaskId, runner: TaskRunner, taskList: seq<TaskMetadata>)
    requires WellStamped(s.taskLists)
    requires runner.id == task.taskRunnerId
    requires exists j :: 0 <= j < |taskList| && taskList[j].taskType == task.taskType
    ensures var lost := DispatchAll(s, [SelectTask(task), UnregisterTaskRunner(runner.id)]);
      lost.activeTaskId != Some(task) && lost.previousSessionActiveTaskId == Some(task)
    ensures var back := DispatchAll(s, [SelectTask(task), UnregisterTaskRunner(runner.id),
        RegisterTaskRunner(runner), TaskListUpdated(taskList, runner.id)]);
      back.activeTaskId == Some(task) && back.previousSessionActiveTaskId.None?
  {
    var a1, a2, a3, a4 := SelectTask(task), UnregisterTaskRunner(runner.id), RegisterTaskRunner(runner), TaskListUpdated(taskList, runner.id);
    var s1 := App(s, a1);
    var s2 := App(s1, a2);
    var s3 := App(s2, a3);
    var s4 := App(s3, a4);
    UnregisterLosesSelection(s, task);
    RepublishRestoresSelection(s2, task, runner, taskList);
    DispatchAllCons(s, a1, [a2]);
    DispatchAllCons(s1, a2, []);
    assert DispatchAll(s, [a1, a2]) == s2 by { assert [a1, a2] == [a1] + [a2]; }
    DispatchAllCons(s, a1, [a2, a3, a4]);
    DispatchAllCons(s1, a2, [a3, a4]);
    DispatchAllCons(s2, a3, [a4]);
    DispatchAllCons(s3, a4, []);
    assert [a1, a2, a3, a4] == [a1] + [a2, a3, a4];
    assert [a2, a3, a4] == [a2] + [a3, a4];
    assert [a3, a4] == [a3] + [a4];
    assert [a4] == [a4] + [];
  }
}
