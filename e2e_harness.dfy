/** The end-to-end test state of the two test_framework.c copies: the mock
    HSM context made at setup, how e2e_configure_mocks arms the mocks, and
    how e2e_go queues the answers of the mocked task_perform. A TASK_STOP
    argument (NULL) is None. */
module E2eHarness {
  import opened Wrappers
  import opened E2eSerial
  import opened MockHsm

  /** A value queued for the mocked task_perform: a task id, the poison pill
      TASK_STOP, or the worker to signal. */
  datatype QueuedValue = QueuedTask(task: TaskId) | QueuedStop | QueuedWorker

  /** The task ids of `args` before its first TASK_STOP. */
  function TasksBeforeStop(args: seq<Option<TaskId>>): (r: seq<TaskId>)
    requires None in args
    ensures |r| < |args| && args[|r|] == None
    ensures forall i :: 0 <= i < |r| ==> args[i] == Some(r[i])
  {
    if args[0] == None then []
    else
      assert None in args[1..] by {
        var k :| 0 <= k < |args| && args[k] == None;
        assert args[1..][k - 1] == None;
      }
      [args[0].value] + TasksBeforeStop(args[1..])
  }

  /** A run of task ids, a TASK_STOP and anything after it: the task ids
      before the stop are exactly the run. */
  lemma TasksBeforeStopOfRun(tasks: seq<TaskId>, rest: seq<Option<TaskId>>)
    ensures None in Run(tasks) + [None] + rest
    ensures TasksBeforeStop(Run(tasks) + [None] + rest) == tasks
  {
    var args := Run(tasks) + [None] + rest;
    assert args[|tasks|] == None;
    assert forall j :: 0 <= j < |tasks| ==> args[j] == Some(tasks[j]);
    TasksBeforeStopAt(args, |tasks|);
    var r := TasksBeforeStop(args);
    assert forall j :: 0 <= j < |r| ==> r[j] == tasks[j];
  }

  /** The task ids as e2e_go arguments. */
  function Run(tasks: seq<TaskId>): (args: seq<Option<TaskId>>)
    ensures |args| == |tasks| && forall i :: 0 <= i < |tasks| ==> args[i] == Some(tasks[i])
  {
    seq(|tasks|, i requires 0 <= i < |tasks| => Some(tasks[i]))
  }

  /** The end-to-end test state: the mock HSM context, the id of the task
      the worker will be given, and the value armed for every call of
      __wrap_hsm_create_context (None while nothing is armed). */
  class E2eState {
    var hsmCtx: HsmContext
    var taskWhat: Option<TaskId>
    var createContextAnswer: Option<HsmContext>

    /** e2e_setup: a zeroed state holding a freshly set up mock HSM
        context. */
    constructor ()
      ensures fresh(hsmCtx)
      ensures hsmCtx.sessionCount == 1 && |hsmCtx.sessions| == 1
      ensures hsmCtx.sessions[0].hsmModule.name == MockKeys.MockHsmModuleName
      ensures taskWhat.None? && createContextAnswer.None?
    {
      var ctx := SetupMockHsm();
      hsmCtx := ctx;
      taskWhat := None;
      createContextAnswer := None;
    }

    /** configure_mock_hsm: every later call of __wrap_hsm_create_context
        answers with the state's context. */
    method ConfigureMockHsm()
      modifies this
      ensures createContextAnswer == Some(hsmCtx)
      ensures hsmCtx == old(hsmCtx) && taskWhat == old(taskWhat)
    {
      createContextAnswer := Some(hsmCtx);
    }

    /** __wrap_hsm_create_context: the armed value; None when nothing is
        armed, where cmocka fails the test. */
    method HsmCreateContext() returns (ctx: Option<HsmContext>)
      ensures ctx == createContextAnswer
    {
      ctx := createContextAnswer;
    }

    /** The framework e2e_configure_mocks: the task id is not handed to the
        worker (the assignment is commented out); the HSM mock is armed. */
    method ConfigureMocksFramework(taskId: TaskId, inputZone: string)
      modifies this
      ensures taskWhat == old(taskWhat)
      ensures hsmCtx == old(hsmCtx) && createContextAnswer == Some(hsmCtx)
    {
      ConfigureMockHsm();
    }

    /** The signer e2e_configure_mocks: the worker's task gets the task id,
        then the HSM mock is armed. */
    method ConfigureMocksSigner(taskId: TaskId, inputZone: string)
      modifies this
      ensures taskWhat == Some(taskId)
      ensures hsmCtx == old(hsmCtx) && createContextAnswer == Some(hsmCtx)
    {
      taskWhat := Some(taskId);
      ConfigureMockHsm();
    }
  }

  /** e2e_go: the task ids up to the first TASK_STOP are queued in order,
      then TASK_STOP and the worker. The argument list must hold a
      TASK_STOP. */
  method E2eGo(args: seq<Option<TaskId>>) returns (queue: seq<QueuedValue>)
    requires None in args
    ensures |queue| == |TasksBeforeStop(args)| + 2
    ensures forall i :: 0 <= i < |TasksBeforeStop(args)| ==> queue[i] == QueuedTask(TasksBeforeStop(args)[i])
    ensures queue[|queue| - 2] == QueuedStop && queue[|queue| - 1] == QueuedWorker
  {
    queue := [];
    var i := 0;
    while args[i] != None
      invariant 0 <= i < |args| && None in args[i..]
      invariant forall j :: 0 <= j < i ==> args[j].Some?
      invariant |queue| == i && forall j :: 0 <= j < i ==> queue[j] == QueuedTask(args[j].value)
      decreases |args| - i
    {
      var taskType := args[i].value;
      queue := queue + [QueuedTask(taskType)];
      assert None in args[i + 1..] by {
        var k :| 0 <= k < |args[i..]| && args[i..][k] == None;
        assert args[i + 1..][k - 1] == None;
      }
      i := i + 1;
    }
    TasksBeforeStopAt(args, i);
    queue := queue + [QueuedStop, QueuedWorker];
  }

  /** A TASK_STOP at `i` after task ids only ends the queued run at `i`. */
  lemma TasksBeforeStopAt(args: seq<Option<TaskId>>, i: nat)
    requires i < |args| && args[i] == None
    requires forall j :: 0 <= j < i ==> args[j].Some?
    ensures None in args && |TasksBeforeStop(args)| == i
  {
    var r := TasksBeforeStop(args);
    assert !(|r| < i) && !(i < |r|);
  }
}
