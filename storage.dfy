/**
 * The `Storage` class of models/storage.py, holding in memory the two lists
 * its JSON document contains. Each method updates `children` or `tasks` the
 * way the Python code rewrites the document.
 */
module Store {
  import opened Wrappers
  import opened Seqs
  import opened Records

  class Storage {
    var children: seq<Child>
    var tasks: seq<TaskRecord>

    /** Ids are unique among children and among task records. */
    ghost predicate Valid()
      reads this
    {
      UniqueKeys(children, ChildKey) && UniqueKeys(tasks, RecordKey)
    }

    /** A fresh store: `{"children": [], "tasks": []}`. */
    constructor ()
      ensures children == [] && tasks == []
      ensures Valid()
    {
      children := [];
      tasks := [];
    }

    /** `add_child`: appends the child under the next id and returns that id. */
    method AddChild(parentId: int, name: string, age: int, tzLabel: string, tzOffset: int)
      returns (childId: int)
      modifies this
      ensures childId == NextChildId(old(children))
      ensures forall c :: c in old(children) ==> c.id < childId
      ensures children == old(children) + [Child(childId, parentId, name, age, tzLabel, tzOffset)]
      ensures tasks == old(tasks)
      ensures GetChild(childId) == Some(Child(childId, parentId, name, age, tzLabel, tzOffset))
      ensures old(Valid()) ==> Valid()
    {
      childId := NextChildId(children);
      var child := Child(childId, parentId, name, age, tzLabel, tzOffset);
      if Valid() {
        AppendKeepsUniqueKeys(children, child, ChildKey);
      }
      AddedChildIsFound(children, child);
      children := children + [child];
    }

    /** `get_child`. */
    function GetChild(childId: int): (r: Option<Child>)
      reads this
      ensures r.None? <==> forall c :: c in children ==> c.id != childId
      ensures r.Some? ==> r.value in children && r.value.id == childId
      ensures Valid() && r.Some? ==> forall c :: c in children && c.id == childId ==> c == r.value
    {
      FindChild(children, childId)
    }

    /** `get_children_by_parent`. */
    function GetChildrenByParent(parentId: int): (r: seq<Child>)
      reads this
      ensures forall c :: c in r <==> c in children && c.parentId == parentId
    {
      ChildrenOfParent(children, parentId)
    }

    /** `delete_child`: drops the child and, with it, every task record of that child. */
    method DeleteChild(childId: int)
      modifies this
      ensures children == WithoutChild(old(children), childId)
      ensures tasks == WithoutChildRecords(old(tasks), childId)
      ensures GetChild(childId) == None
      ensures forall y, m :: MonthRecords(tasks, childId, y, m) == []
      ensures old(Valid()) ==> Valid()
    {
      if Valid() {
        FilterKeepsUniqueKeys(children, (c: Child) => c.id != childId, ChildKey);
        FilterKeepsUniqueKeys(tasks, (r: TaskRecord) => r.childId != childId, RecordKey);
      }
      DeleteChildCascades(children, tasks, childId);
      children := WithoutChild(children, childId);
      tasks := WithoutChildRecords(tasks, childId);
    }

    /** `add_task_record`: appends a record with status "new" under the next record id. */
    method AddTaskRecord(childId: int, year: int, month: int, day: int, taskId: int)
      modifies this
      ensures tasks == old(tasks) + [NewRecord(old(tasks), DayKey(childId, year, month, day), taskId)]
      ensures forall r :: r in old(tasks) ==> r.id < NextRecordId(old(tasks))
      ensures children == old(children)
      ensures old(Valid()) ==> Valid()
    {
      var rec := NewRecord(tasks, DayKey(childId, year, month, day), taskId);
      if Valid() {
        forall r | r in tasks ensures RecordKey(r) < RecordKey(rec) {
          assert RecordKey(r) < NextId(tasks, RecordKey);
        }
        AppendKeepsUniqueKeys(tasks, rec, RecordKey);
      }
      tasks := tasks + [rec];
    }

    /** `get_task_record`. */
    function GetTaskRecord(childId: int, year: int, month: int, day: int): (r: Option<TaskRecord>)
      reads this
      ensures r.None? <==> forall x :: x in tasks ==> !AtKey(x, DayKey(childId, year, month, day))
      ensures r.Some? ==> r.value in tasks && AtKey(r.value, DayKey(childId, year, month, day))
    {
      FindRecord(tasks, DayKey(childId, year, month, day))
    }

    /** `set_task_status`: sets the status of every record at the key, in place. */
    method SetTaskStatus(childId: int, year: int, month: int, day: int, status: string)
      modifies this
      ensures tasks == SetStatusAll(old(tasks), DayKey(childId, year, month, day), status)
      ensures children == old(children)
      ensures old(Valid()) ==> Valid()
    {
      var k := DayKey(childId, year, month, day);
      var i := 0;
      while i < |tasks|
        invariant 0 <= i <= |tasks| == |old(tasks)|
        invariant children == old(children)
        invariant forall j :: 0 <= j < i ==> tasks[j] == Restatus(old(tasks)[j], k, status)
        invariant forall j :: i <= j < |tasks| ==> tasks[j] == old(tasks)[j]
      {
        if AtKey(tasks[i], k) {
          tasks := tasks[i := tasks[i].(status := status)];
        }
        i := i + 1;
      }
      assert forall j :: 0 <= j < |tasks| ==> RecordKey(tasks[j]) == RecordKey(old(tasks)[j]);
    }

    /** `update_task_id`: gives every record at the key the new task and status "new";
        reports whether any record matched. */
    method UpdateTaskId(childId: int, year: int, month: int, day: int, newTaskId: int)
      returns (updated: bool)
      modifies this
      ensures tasks == ReplaceTaskIdAll(old(tasks), DayKey(childId, year, month, day), newTaskId)
      ensures updated <==> HasRecord(old(tasks), DayKey(childId, year, month, day))
      ensures children == old(children)
      ensures old(Valid()) ==> Valid()
    {
      var k := DayKey(childId, year, month, day);
      updated := false;
      var i := 0;
      while i < |tasks|
        invariant 0 <= i <= |tasks| == |old(tasks)|
        invariant children == old(children)
        invariant forall j :: 0 <= j < i ==> tasks[j] == Retask(old(tasks)[j], k, newTaskId)
        invariant forall j :: i <= j < |tasks| ==> tasks[j] == old(tasks)[j]
        invariant updated <==> exists j :: 0 <= j < i && AtKey(old(tasks)[j], k)
      {
        if AtKey(tasks[i], k) {
          tasks := tasks[i := tasks[i].(taskId := newTaskId, status := StatusNew)];
          updated := true;
        }
        i := i + 1;
      }
      assert forall j :: 0 <= j < |tasks| ==> RecordKey(tasks[j]) == RecordKey(old(tasks)[j]);
    }

    /** `get_task_records_for_child`: collects the child's records of one month, in stored order. */
    method GetTaskRecordsForChild(childId: int, year: int, month: int) returns (result: seq<TaskRecord>)
      ensures result == MonthRecords(tasks, childId, year, month)
    {
      var rs := tasks;
      result := [];
      var i := 0;
      while i < |rs|
        invariant 0 <= i <= |rs|
        invariant result == MonthRecords(rs[..i], childId, year, month)
      {
        var rec := rs[i];
        MonthRecordsSnoc(rs[..i], rec, childId, year, month);
        assert rs[..i + 1] == rs[..i] + [rec];
        if rec.childId == childId && rec.year == year && rec.month == month {
          result := result + [rec];
        }
        i := i + 1;
      }
      assert rs[..i] == rs;
    }

    /** `get_child_month_records`: the same list, kept for older callers. */
    method GetChildMonthRecords(childId: int, year: int, month: int) returns (result: seq<TaskRecord>)
      ensures forall r :: r in result <==> r in tasks && r.childId == childId && r.year == year && r.month == month
      ensures result == MonthRecords(tasks, childId, year, month)
    {
      result := GetTaskRecordsForChild(childId, year, month);
    }
  }
}
