/**
 * The records kept by models/storage.py and the pure computations over
 * them: the "max id + 1, else 1" rule, first-match lookups, the list
 * comprehensions of the deletes and the month query, and the record-wise
 * updates that `set_task_status` and `update_task_id` perform.
 */
module Records {
  import opened Wrappers
  import opened Seqs

  /** A registered child, as stored under "children". */
  datatype Child = Child(id: int, parentId: int, name: string, age: int, tzLabel: string, tzOffset: int)

  /** A task assigned to a child on one calendar day, as stored under "tasks". */
  datatype TaskRecord = TaskRecord(id: int, childId: int, year: int, month: int, day: int, taskId: int, status: string)

  /** The natural key (child_id, year, month, day) the store looks records up by. */
  datatype DayKey = DayKey(childId: int, year: int, month: int, day: int)

  const StatusNew: string := "new"
  const StatusDone: string := "done"

  function ChildKey(c: Child): int { c.id }

  function RecordKey(r: TaskRecord): int { r.id }

  predicate AtKey(r: TaskRecord, k: DayKey) {
    r.childId == k.childId && r.year == k.year && r.month == k.month && r.day == k.day
  }

  predicate HasRecord(rs: seq<TaskRecord>, k: DayKey) {
    exists i :: 0 <= i < |rs| && AtKey(rs[i], k)
  }

  // ---------- ids ----------

  function MaxKey<T(!new)>(s: seq<T>, key: T -> int): (m: int)
    requires s != []
    ensures exists i :: 0 <= i < |s| && key(s[i]) == m
    ensures forall i :: 0 <= i < |s| ==> key(s[i]) <= m
  {
    if |s| == 1 then key(s[0])
    else
      var rest := MaxKey(s[1..], key);
      if key(s[0]) >= rest then key(s[0]) else rest
  }

  /** `_next_child_id` / `_next_task_record_id`: 1 when empty, else the largest id plus one. */
  function NextId<T(!new)>(s: seq<T>, key: T -> int): (n: int)
    ensures s == [] ==> n == 1
    ensures s != [] ==> exists i :: 0 <= i < |s| && key(s[i]) + 1 == n
    ensures forall x :: x in s ==> key(x) < n
  {
    if s == [] then 1 else MaxKey(s, key) + 1
  }

  function NextChildId(cs: seq<Child>): int { NextId(cs, ChildKey) }

  function NextRecordId(rs: seq<TaskRecord>): int { NextId(rs, RecordKey) }

  // ---------- children ----------

  /** `get_child`: the first child with that id. */
  function FindChild(cs: seq<Child>, id: int): (r: Option<Child>)
    ensures r.None? <==> forall i :: 0 <= i < |cs| ==> cs[i].id != id
    ensures r.Some? ==> exists i :: 0 <= i < |cs| && cs[i] == r.value && r.value.id == id
                          && forall j :: 0 <= j < i ==> cs[j].id != id
  {
    if cs == [] then None
    else if cs[0].id == id then Some(cs[0])
    else
      var r := FindChild(cs[1..], id);
      assert forall i :: 1 <= i < |cs| ==> cs[i] == cs[1..][i - 1];
      r
  }

  /** `get_children_by_parent`. */
  function ChildrenOfParent(cs: seq<Child>, parentId: int): (r: seq<Child>)
    ensures forall c :: c in r <==> c in cs && c.parentId == parentId
  {
    Filter(cs, (c: Child) => c.parentId == parentId)
  }

  /** The children `delete_child` keeps. */
  function WithoutChild(cs: seq<Child>, id: int): seq<Child> {
    Filter(cs, (c: Child) => c.id != id)
  }

  /** The task records `delete_child` keeps. */
  function WithoutChildRecords(rs: seq<TaskRecord>, id: int): seq<TaskRecord> {
    Filter(rs, (r: TaskRecord) => r.childId != id)
  }

  // ---------- task records ----------

  /** `get_task_record`: the first record at the natural key. */
  function FindRecord(rs: seq<TaskRecord>, k: DayKey): (r: Option<TaskRecord>)
    ensures r.None? <==> !HasRecord(rs, k)
    ensures r.Some? ==> exists i :: 0 <= i < |rs| && rs[i] == r.value && AtKey(r.value, k)
                          && forall j :: 0 <= j < i ==> !AtKey(rs[j], k)
  {
    if rs == [] then None
    else if AtKey(rs[0], k) then Some(rs[0])
    else
      var r := FindRecord(rs[1..], k);
      assert forall i :: 1 <= i < |rs| ==> rs[i] == rs[1..][i - 1];
      r
  }

  /** `get_task_records_for_child`: the records of one child in one month, in stored order. */
  function MonthRecords(rs: seq<TaskRecord>, childId: int, year: int, month: int): (r: seq<TaskRecord>)
    ensures forall x :: x in r <==> x in rs && x.childId == childId && x.year == year && x.month == month
  {
    Filter(rs, (x: TaskRecord) => x.childId == childId && x.year == year && x.month == month)
  }

  /** Scanning one more record extends the month's list by that record exactly when it belongs to the month. */
  lemma MonthRecordsSnoc(rs: seq<TaskRecord>, r: TaskRecord, childId: int, year: int, month: int)
    ensures MonthRecords(rs + [r], childId, year, month)
            == MonthRecords(rs, childId, year, month)
               + (if r.childId == childId && r.year == year && r.month == month then [r] else [])
  {
    FilterAppend(rs, [r], (x: TaskRecord) => x.childId == childId && x.year == year && x.month == month);
  }

  /** The record `add_task_record` appends to `rs`. */
  function NewRecord(rs: seq<TaskRecord>, k: DayKey, taskId: int): TaskRecord {
    TaskRecord(NextRecordId(rs), k.childId, k.year, k.month, k.day, taskId, StatusNew)
  }

  function Restatus(r: TaskRecord, k: DayKey, status: string): TaskRecord {
    if AtKey(r, k) then r.(status := status) else r
  }

  /** The records after `set_task_status`: every record at the key gets the status. */
  function SetStatusAll(rs: seq<TaskRecord>, k: DayKey, status: string): seq<TaskRecord> {
    seq(|rs|, i requires 0 <= i < |rs| => Restatus(rs[i], k, status))
  }

  function Retask(r: TaskRecord, k: DayKey, taskId: int): TaskRecord {
    if AtKey(r, k) then r.(taskId := taskId, status := StatusNew) else r
  }

  /** The records after `update_task_id`: every record at the key gets the task and status "new". */
  function ReplaceTaskIdAll(rs: seq<TaskRecord>, k: DayKey, taskId: int): seq<TaskRecord> {
    seq(|rs|, i requires 0 <= i < |rs| => Retask(rs[i], k, taskId))
  }

  // ---------- properties ----------

  /** A lookup in `a + b` finds the first match of `a`, else the first match of `b`. */
  lemma {:induction false} FindRecordAppend(a: seq<TaskRecord>, b: seq<TaskRecord>, k: DayKey)
    ensures FindRecord(a + b, k) == if FindRecord(a, k).Some? then FindRecord(a, k) else FindRecord(b, k)
  {
    if a == [] {
      assert a + b == b;
    } else {
      assert (a + b)[1..] == a[1..] + b;
      FindRecordAppend(a[1..], b, k);
    }
  }

  /** After appending a record for a key that had none, the lookup returns exactly that record. */
  lemma AddedRecordIsFound(rs: seq<TaskRecord>, k: DayKey, taskId: int)
    requires !HasRecord(rs, k)
    ensures FindRecord(rs + [NewRecord(rs, k, taskId)], k) == Some(NewRecord(rs, k, taskId))
    ensures NewRecord(rs, k, taskId).status == StatusNew && NewRecord(rs, k, taskId).taskId == taskId
  {
    FindRecordAppend(rs, [NewRecord(rs, k, taskId)], k);
  }

  /** Appending never hides an existing record: the first match stays the first match. */
  lemma AppendKeepsFirstMatch(rs: seq<TaskRecord>, r: TaskRecord, k: DayKey)
    requires HasRecord(rs, k)
    ensures FindRecord(rs + [r], k) == FindRecord(rs, k)
  {
    FindRecordAppend(rs, [r], k);
  }

  /** A new child id is larger than every stored one, so the lookup finds the new child. */
  lemma AddedChildIsFound(cs: seq<Child>, c: Child)
    requires c.id == NextChildId(cs)
    ensures FindChild(cs + [c], c.id) == Some(c)
  {
    forall x | x in cs ensures x.id < c.id {
      assert ChildKey(x) < NextId(cs, ChildKey);
    }
    FindChildAfterLargerIds(cs, c);
  }

  lemma {:induction false} FindChildAfterLargerIds(cs: seq<Child>, c: Child)
    requires forall x :: x in cs ==> x.id < c.id
    ensures FindChild(cs + [c], c.id) == Some(c)
  {
    if cs != [] {
      assert (cs + [c])[1..] == cs[1..] + [c];
      FindChildAfterLargerIds(cs[1..], c);
    }
  }

  /** After `delete_child` neither the child nor any of its records remain, and nothing else is lost. */
  lemma DeleteChildCascades(cs: seq<Child>, rs: seq<TaskRecord>, id: int)
    ensures FindChild(WithoutChild(cs, id), id) == None
    ensures forall y, m :: MonthRecords(WithoutChildRecords(rs, id), id, y, m) == []
    ensures forall c :: c in WithoutChild(cs, id) <==> c in cs && c.id != id
    ensures forall r :: r in WithoutChildRecords(rs, id) <==> r in rs && r.childId != id
  {
    forall y, m ensures MonthRecords(WithoutChildRecords(rs, id), id, y, m) == [] {
      FilterNone(WithoutChildRecords(rs, id), (x: TaskRecord) => x.childId == id && x.year == y && x.month == m);
    }
    var left := WithoutChild(cs, id);
    forall i | 0 <= i < |left| ensures left[i].id != id {
      assert left[i] in left;
    }
  }

  /** `set_task_status` rewrites the status of the first match, so the lookup sees the new status. */
  lemma {:induction false} FindAfterSetStatus(rs: seq<TaskRecord>, k: DayKey, status: string)
    ensures FindRecord(SetStatusAll(rs, k, status), k)
            == if FindRecord(rs, k).Some? then Some(FindRecord(rs, k).value.(status := status)) else None
  {
    if rs != [] {
      assert SetStatusAll(rs, k, status)[1..] == SetStatusAll(rs[1..], k, status);
      FindAfterSetStatus(rs[1..], k, status);
    }
  }

  /** `update_task_id` likewise: the lookup sees the new task id and status "new". */
  lemma {:induction false} FindAfterReplaceTaskId(rs: seq<TaskRecord>, k: DayKey, taskId: int)
    ensures FindRecord(ReplaceTaskIdAll(rs, k, taskId), k)
            == if FindRecord(rs, k).Some?
               then Some(FindRecord(rs, k).value.(taskId := taskId, status := StatusNew))
               else None
  {
    if rs != [] {
      assert ReplaceTaskIdAll(rs, k, taskId)[1..] == ReplaceTaskIdAll(rs[1..], k, taskId);
      FindAfterReplaceTaskId(rs[1..], k, taskId);
    }
  }

  /** `set_task_status` changes only the status of matching records; with no match nothing changes. */
  lemma SetStatusTouchesOnlyMatches(rs: seq<TaskRecord>, k: DayKey, status: string)
    ensures |SetStatusAll(rs, k, status)| == |rs|
    ensures forall i :: 0 <= i < |rs| && AtKey(rs[i], k) ==>
              SetStatusAll(rs, k, status)[i] == rs[i].(status := status)
    ensures forall i :: 0 <= i < |rs| && !AtKey(rs[i], k) ==> SetStatusAll(rs, k, status)[i] == rs[i]
    ensures !HasRecord(rs, k) ==> SetStatusAll(rs, k, status) == rs
  {
  }

  /** `update_task_id` changes only task id and status of matching records, even a "done" one. */
  lemma ReplaceTaskIdTouchesOnlyMatches(rs: seq<TaskRecord>, k: DayKey, taskId: int)
    ensures |ReplaceTaskIdAll(rs, k, taskId)| == |rs|
    ensures forall i :: 0 <= i < |rs| && AtKey(rs[i], k) ==>
              ReplaceTaskIdAll(rs, k, taskId)[i] == rs[i].(taskId := taskId, status := StatusNew)
    ensures forall i :: 0 <= i < |rs| && !AtKey(rs[i], k) ==> ReplaceTaskIdAll(rs, k, taskId)[i] == rs[i]
    ensures !HasRecord(rs, k) ==> ReplaceTaskIdAll(rs, k, taskId) == rs
  {
  }
}
