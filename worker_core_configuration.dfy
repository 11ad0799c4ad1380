/**
 * WorkerCoreConfiguration: the settings of a worker, a mutable record with
 * fixed defaults, a getter per setting and a setter that stores its argument
 * as given, without validation.
 */
module WorkerConfiguration {
  import opened Wrappers
  import opened Wire

  /** Task.TASKTYPE_ANY, the task type that stands for every type; its value is defined elsewhere. */
  const TaskTypeAny: string

  /** The six settings as a value; `None` is a Java null. */
  datatype Settings = Settings(
    maxThreads: Int32,
    workerId: Option<string>,
    location: Option<string>,
    maxThreadsByTaskType: Option<map<string, Int32>>,
    groups: Option<seq<Int32>>,
    tasksRequestTimeout: Int32)

  /** What a new configuration holds. */
  function Defaults(): (d: Settings)
    ensures d.maxThreads == 20 && d.workerId == None && d.location == Some("unknown")
    ensures d.maxThreadsByTaskType.Some? && d.maxThreadsByTaskType.value.Keys == {TaskTypeAny}
    ensures d.maxThreadsByTaskType.value[TaskTypeAny] == 1
    ensures d.groups == Some([0]) && d.tasksRequestTimeout == 60000
  {
    Settings(20, None, Some("unknown"), Some(map[TaskTypeAny := 1]), Some([0]), 60000)
  }

  class WorkerCoreConfiguration {
    var maxThreads: Int32
    var workerId: Option<string>
    var location: Option<string>
    var maxThreadsByTaskType: Option<map<string, Int32>>
    var groups: Option<seq<Int32>>
    var tasksRequestTimeout: Int32

    function Current(): Settings
      reads this
    {
      Settings(maxThreads, workerId, location, maxThreadsByTaskType, groups, tasksRequestTimeout)
    }

    /** The constructor: twenty threads, location "unknown", one thread for any task type, group 0, a 60000 ms timeout, no worker id. */
    constructor()
      ensures Current() == Defaults()
    {
      tasksRequestTimeout := 60000;
      maxThreadsByTaskType := Some(map[TaskTypeAny := 1]);
      maxThreads := 20;
      location := Some("unknown");
      groups := Some([0]);
      workerId := None;
    }

    function GetMaxThreads(): Int32
      reads this
    {
      maxThreads
    }

    method SetMaxThreads(v: Int32)
      modifies this`maxThreads
      ensures GetMaxThreads() == v
      ensures Current() == old(Current()).(maxThreads := v)
    {
      maxThreads := v;
    }

    function GetWorkerId(): Option<string>
      reads this
    {
      workerId
    }

    method SetWorkerId(v: Option<string>)
      modifies this`workerId
      ensures GetWorkerId() == v
      ensures Current() == old(Current()).(workerId := v)
    {
      workerId := v;
    }

    function GetLocation(): Option<string>
      reads this
    {
      location
    }

    method SetLocation(v: Option<string>)
      modifies this`location
      ensures GetLocation() == v
      ensures Current() == old(Current()).(location := v)
    {
      location := v;
    }

    function GetMaxThreadsByTaskType(): Option<map<string, Int32>>
      reads this
    {
      maxThreadsByTaskType
    }

    method SetMaxThreadsByTaskType(v: Option<map<string, Int32>>)
      modifies this`maxThreadsByTaskType
      ensures GetMaxThreadsByTaskType() == v
      ensures Current() == old(Current()).(maxThreadsByTaskType := v)
    {
      maxThreadsByTaskType := v;
    }

    function GetGroups(): Option<seq<Int32>>
      reads this
    {
      groups
    }

    method SetGroups(v: Option<seq<Int32>>)
      modifies this`groups
      ensures GetGroups() == v
      ensures Current() == old(Current()).(groups := v)
    {
      groups := v;
    }

    function GetTasksRequestTimeout(): Int32
      reads this
    {
      tasksRequestTimeout
    }

    method SetTasksRequestTimeout(v: Int32)
      modifies this`tasksRequestTimeout
      ensures GetTasksRequestTimeout() == v
      ensures Current() == old(Current()).(tasksRequestTimeout := v)
    {
      tasksRequestTimeout := v;
    }
  }
}
