/**
  The state and actions of the task-runner panel. Values the reducer only
  stores and hands on are opaque types: it never looks inside them.
 */
module TaskRunnerTypes {
  import opened Wrappers
  import opened OrderedMaps

  /** The panel handle created by the UI. */
  type Panel(==)
  /** What a runner reports when a task starts. */
  type TaskInfo(==)
  /** A progress report of a running task. */
  type Progress(==)
  /** Everything a task runner object offers besides its id and name. */
  type RunnerCapability(==)
  /** Everything a task's metadata holds besides its type. */
  type TaskDetails(==)

  /** A task is named by the runner that owns it and its type. */
  datatype TaskId = TaskId(taskRunnerId: string, taskType: string)

  datatype TaskRunner = TaskRunner(id: string, name: string, capability: RunnerCapability)

  /** A task as a runner publishes it. */
  datatype TaskMetadata = TaskMetadata(taskType: string, details: TaskDetails)

  /**
    A published task stamped with the id of the runner whose list it was
    published in and that runner's name, absent when the runner was not
    registered at the time.
   */
  datatype AnnotatedTask = AnnotatedTask(meta: TaskMetadata, taskRunnerId: string, taskRunnerName: Option<string>)

  /** `info` is absent when progress arrived without a preceding start. */
  datatype TaskStatus = TaskStatus(info: Option<TaskInfo>, progress: Option<Progress>)

  type TaskLists = OrderedMap<string, seq<AnnotatedTask>>

  datatype AppState = AppState(
    panel: Option<Panel>,
    visible: bool,
    projectRoot: Option<string>,
    taskRunners: OrderedMap<string, TaskRunner>,
    taskLists: TaskLists,
    activeTaskId: Option<TaskId>,
    previousSessionActiveTaskId: Option<TaskId>,
    taskStatus: Option<TaskStatus>
  )

  /** The reducer's actions; `Unrecognized` stands for every action type the reducer has no case for. */
  datatype Action =
    | PanelCreated(panel: Panel)
    | PanelDestroyed
    | SelectTask(taskId: TaskId)
    | TaskCompleted
    | TaskProgress(progress: Option<Progress>)
    | TaskErrored
    | TaskStarted(taskInfo: TaskInfo)
    | TaskStopped
    | ToolbarVisibilityUpdated(visible: bool)
    | SetProjectRoot(projectRoot: Option<string>)
    | RegisterTaskRunner(taskRunner: TaskRunner)
    | UnregisterTaskRunner(id: string)
    | TaskListUpdated(taskList: seq<TaskMetadata>, taskRunnerId: string)
    | Unrecognized(actionType: string)

  /** `id` names a task present in some published list: one stamped with its runner and of its type. */
  predicate ListsContain(lists: seq<(string, seq<AnnotatedTask>)>, id: TaskId) {
    exists i, j :: 0 <= i < |lists| && 0 <= j < |lists[i].1|
      && lists[i].1[j].taskRunnerId == id.taskRunnerId && lists[i].1[j].meta.taskType == id.taskType
  }

  /** Every task in a list is stamped with the id of the runner the list is stored under. */
  ghost predicate WellStamped(lists: seq<(string, seq<AnnotatedTask>)>) {
    forall i, j :: 0 <= i < |lists| && 0 <= j < |lists[i].1| ==> lists[i].1[j].taskRunnerId == lists[i].0
  }

  /** The active task is either unset or names a published task. */
  predicate ActiveIsNullOrValid(s: AppState) {
    s.activeTaskId.None? || ListsContain(s.taskLists, s.activeTaskId.value)
  }
}
