/**
  The task-runner panel reducer: one pure, total transition function `App`
  from a state and an action to the next state, plus the active-task
  validation it applies after the task lists change.
 */
module Reducers {
  import opened Wrappers
  import opened OrderedMaps
  import opened TaskRunnerTypes

  /** The active task is set and some published list holds it. */
  predicate ActiveTaskIsValid(s: AppState) {
    s.activeTaskId.Some? && ListsContain(s.taskLists, s.activeTaskId.value)
  }

  /** No list holds a task. */
  predicate AllListsEmpty(lists: seq<(string, seq<AnnotatedTask>)>) {
    forall i :: 0 <= i < |lists| ==> |lists[i].1| == 0
  }

  /** `i` is the position of the first non-empty list. */
  predicate FirstNonEmptyAt(lists: seq<(string, seq<AnnotatedTask>)>, i: int) {
    0 <= i < |lists| && |lists[i].1| > 0 && forall k :: 0 <= k < i ==> |lists[k].1| == 0
  }

  /** The first task in iteration order: the head of the first non-empty list, absent when every list is empty. */
  function GetFirstTask(lists: seq<(string, seq<AnnotatedTask>)>): (r: Option<AnnotatedTask>)
    ensures r.None? <==> AllListsEmpty(lists)
    ensures r.Some? ==> exists i :: FirstNonEmptyAt(lists, i) && r.value == lists[i].1[0]
  {
    if |lists| == 0 then None
    else if |lists[0].1| > 0 then
      assert FirstNonEmptyAt(lists, 0);
      Some(lists[0].1[0])
    else
      assert forall i :: FirstNonEmptyAt(lists[1..], i) ==> FirstNonEmptyAt(lists, i + 1);
      GetFirstTask(lists[1..])
  }

  /** The id of a published task. */
  function IdOf(t: AnnotatedTask): (id: TaskId) {
    TaskId(t.taskRunnerId, t.meta.taskType)
  }

  /**
    Keep a valid active task; otherwise fall back to the first task (or none)
    and remember the lost one unless an earlier one is already remembered.
   */
  function ValidateActiveTask(s: AppState): (r: AppState)
    ensures ActiveTaskIsValid(s) ==> r == s
    ensures !ActiveTaskIsValid(s) ==> (r.activeTaskId.None? <==> AllListsEmpty(s.taskLists))
    ensures !ActiveTaskIsValid(s) && r.activeTaskId.Some? ==>
      exists i :: FirstNonEmptyAt(s.taskLists, i) && r.activeTaskId.value == IdOf(s.taskLists[i].1[0])
    ensures ActiveIsNullOrValid(r)
    ensures s.previousSessionActiveTaskId.Some? ==> r.previousSessionActiveTaskId == s.previousSessionActiveTaskId
    ensures !ActiveTaskIsValid(s) && s.previousSessionActiveTaskId.None? ==> r.previousSessionActiveTaskId == s.activeTaskId
    ensures r == s.(activeTaskId := r.activeTaskId, previousSessionActiveTaskId := r.previousSessionActiveTaskId)
  {
    if ActiveTaskIsValid(s) then s
    else
      var first := GetFirstTask(s.taskLists);
      var r := s.(
        activeTaskId := if first.None? then None else Some(IdOf(first.value)),
        previousSessionActiveTaskId :=
          if s.previousSessionActiveTaskId.Some? then s.previousSessionActiveTaskId else s.activeTaskId);
      FirstTaskIsValid(s.taskLists);
      r
  }

  lemma FirstTaskIsValid(lists: seq<(string, seq<AnnotatedTask>)>)
    ensures GetFirstTask(lists).Some? ==> ListsContain(lists, IdOf(GetFirstTask(lists).value))
  {
    var first := GetFirstTask(lists);
    if first.Some? {
      var i :| FirstNonEmptyAt(lists, i) && first.value == lists[i].1[0];
      assert lists[i].1[0] == first.value;
    }
  }

  /** Stamp every published task with the runner's id and name. */
  function Annotate(taskList: seq<TaskMetadata>, taskRunnerId: string, taskRunnerName: Option<string>): (r: seq<AnnotatedTask>) {
    seq(|taskList|, j requires 0 <= j < |taskList| => AnnotatedTask(taskList[j], taskRunnerId, taskRunnerName))
  }

  /** `Array.prototype.some` over the task types of a list. */
  predicate HasTaskType(list: seq<AnnotatedTask>, taskType: string) {
    exists j :: 0 <= j < |list| && list[j].meta.taskType == taskType
  }

  /** The name of the runner registered under `id`, absent when none is. */
  function RunnerName(runners: OrderedMap<string, TaskRunner>, id: string): (name: Option<string>) {
    match Get(runners, id)
    case Some(runner) => Some(runner.name)
    case None => None
  }

  /**
    The reducer. Every action either sets the fields it names or, for an
    action type with no case, returns the state itself. Only unregistering
    and publishing touch the task lists, and only registering and
    unregistering touch the registry.
   */
  function App(s: AppState, a: Action): (r: AppState)
    ensures !(a.UnregisterTaskRunner? || a.TaskListUpdated?) ==> r.taskLists == s.taskLists
    ensures !(a.UnregisterTaskRunner? || a.RegisterTaskRunner?) ==> r.taskRunners == s.taskRunners
  {
    match a
    case PanelCreated(panel) => s.(panel := Some(panel))
    case PanelDestroyed => s.(panel := None)
    case SelectTask(taskId) => s.(activeTaskId := Some(taskId), previousSessionActiveTaskId := None)
    case TaskCompleted => s.(taskStatus := None)
    case TaskProgress(progress) =>
      var info := if s.taskStatus.Some? then s.taskStatus.value.info else None;
      s.(taskStatus := Some(TaskStatus(info, progress)))
    case TaskErrored => s.(taskStatus := None)
    case TaskStarted(taskInfo) => s.(taskStatus := Some(TaskStatus(Some(taskInfo), None)))
    case TaskStopped => s.(taskStatus := None)
    case ToolbarVisibilityUpdated(visible) => s.(visible := visible)
    case SetProjectRoot(projectRoot) => s.(projectRoot := projectRoot)
    case RegisterTaskRunner(taskRunner) =>
      s.(taskRunners := Set(s.taskRunners, taskRunner.id, taskRunner))
    case UnregisterTaskRunner(id) =>
      ValidateActiveTask(s.(taskRunners := Delete(s.taskRunners, id), taskLists := Delete(s.taskLists, id)))
    case TaskListUpdated(taskList, taskRunnerId) =>
      var annotated := Annotate(taskList, taskRunnerId, RunnerName(s.taskRunners, taskRunnerId));
      var newState := s.(taskLists := Set(s.taskLists, taskRunnerId, annotated));
      var prev := s.previousSessionActiveTaskId;
      if prev.Some? && taskRunnerId == prev.value.taskRunnerId && HasTaskType(annotated, prev.value.taskType) then
        newState.(activeTaskId := prev, previousSessionActiveTaskId := None)
      else
        ValidateActiveTask(newState)
    case Unrecognized(_) => s
  }

  lemma DeleteKeepsWellStamped(lists: TaskLists, id: string)
    ensures WellStamped(lists) ==> WellStamped(Delete(lists, id))
  {
    var r: seq<(string, seq<AnnotatedTask>)> := Delete(lists, id);
    if WellStamped(lists) {
      forall i, j | 0 <= i < |r| && 0 <= j < |r[i].1| ensures r[i].1[j].taskRunnerId == r[i].0 {
        assert r[i] in r;
        var i' :| 0 <= i' < |lists| && lists[i'] == r[i];
      }
    }
  }

  lemma SetKeepsWellStamped(lists: TaskLists, id: string, list: seq<AnnotatedTask>)
    requires forall j :: 0 <= j < |list| ==> list[j].taskRunnerId == id
    ensures WellStamped(lists) ==> WellStamped(Set(lists, id, list))
  {
    var r: seq<(string, seq<AnnotatedTask>)> := Set(lists, id, list);
    if WellStamped(lists) {
      forall i, j | 0 <= i < |r| && 0 <= j < |r[i].1| ensures r[i].1[j].taskRunnerId == r[i].0 {
        assert r[i] in r;
        if r[i] != (id, list) {
          var i' :| 0 <= i' < |lists| && lists[i'] == r[i];
        }
      }
    }
  }

  /** A list just stored under `id` and stamped with `id` makes any task of its types valid. */
  lemma PublishedListContains(lists: TaskLists, id: string, list: seq<AnnotatedTask>, task: TaskId)
    requires forall j :: 0 <= j < |list| ==> list[j].taskRunnerId == id
    requires task.taskRunnerId == id && HasTaskType(list, task.taskType)
    ensures ListsContain(Set(lists, id, list), task)
  {
    var r := Set(lists, id, list);
    SetGet(lists, id, list, id);
    var i :| 0 <= i < |r| && r[i].0 == id;
    assert r[i].1 == list;
    var j :| 0 <= j < |list| && list[j].meta.taskType == task.taskType;
    assert r[i].1[j].taskRunnerId == task.taskRunnerId && r[i].1[j].meta.taskType == task.taskType;
  }

  /** `activeTaskIsValid`'s nested loop with early exit, deciding whether the active task is valid. */
  method ScanActiveTaskIsValid(s: AppState) returns (valid: bool)
    ensures valid <==> ActiveTaskIsValid(s)
  {
    if s.activeTaskId.None? {
      return false;
    }
    var active := s.activeTaskId.value;
    var lists: seq<(string, seq<AnnotatedTask>)> := s.taskLists;
    var i := 0;
    while i < |lists|
      invariant 0 <= i <= |lists|
      invariant forall i', j' :: 0 <= i' < i && 0 <= j' < |lists[i'].1| ==>
        !(lists[i'].1[j'].taskRunnerId == active.taskRunnerId && lists[i'].1[j'].meta.taskType == active.taskType)
    {
      var taskList: seq<AnnotatedTask> := lists[i].1;
      var j := 0;
      while j < |taskList|
        invariant 0 <= j <= |taskList|
        invariant forall j' :: 0 <= j' < j ==>
          !(taskList[j'].taskRunnerId == active.taskRunnerId && taskList[j'].meta.taskType == active.taskType)
      {
        if taskList[j].taskRunnerId == active.taskRunnerId && taskList[j].meta.taskType == active.taskType {
          return true;
        }
        j := j + 1;
      }
      i := i + 1;
    }
    return false;
  }

  /** `getFirstTask`'s loop, returning the first task it meets, or nothing. */
  method ScanFirstTask(lists: TaskLists) returns (first: Option<AnnotatedTask>)
    ensures first.None? <==> AllListsEmpty(lists)
    ensures first.Some? ==> exists i :: FirstNonEmptyAt(lists, i) && first.value == lists[i].1[0]
  {
    var i := 0;
    while i < |lists|
      invariant 0 <= i <= |lists|
      invariant forall k :: 0 <= k < i ==> |lists[k].1| == 0
    {
      var taskList: seq<AnnotatedTask> := lists[i].1;
      if |taskList| > 0 {
        assert FirstNonEmptyAt(lists, i);
        return Some(taskList[0]);
      }
      i := i + 1;
    }
    return None;
  }
}
