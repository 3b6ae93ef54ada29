/**
 * The decisions handlers/tasks.py takes over the store: get or create
 * today's record, mark it done, and the reroll invoice. The child's local
 * date, which the source reads from the clock, is the parameter `today`;
 * `choice` stands for the picker's random choice.
 */
module TaskHandlers {
  import opened Wrappers
  import opened Calendar
  import opened Catalog
  import opened Records
  import opened Store
  import TaskPicker
  import Payloads

  /** What `send_today_task` answers. */
  datatype TodayReply =
    | NotDecember          // "it is not December"
    | AlreadyDone          // today's task is done: no task text
    | ShowTask(task: TaskDef)
    | TaskNotInCatalog     // the record's task id is not in the catalog
    | NoEligibleTask       // the picker raised: no task covers the child's age

  /** What `mark_done_for_child` answers. */
  datatype MarkReply = NoTaskToday | MarkedDone

  function TodayKey(child: Child, today: Date): DayKey {
    DayKey(child.id, today.year, today.month, today.day)
  }

  /** The answer for an existing record of today. */
  function ReplyForRecord(catalog: seq<TaskDef>, rec: TaskRecord): (reply: TodayReply)
    ensures rec.status == StatusDone <==> reply == AlreadyDone
    ensures reply.ShowTask? ==> reply.task in catalog && reply.task.id == rec.taskId
    ensures reply == TaskNotInCatalog <==> rec.status != StatusDone && forall t :: t in catalog ==> t.id != rec.taskId
    ensures rec.status != StatusDone && (exists t :: t in catalog && t.id == rec.taskId) ==>
              reply == ShowTask(FindTask(catalog, rec.taskId).value)
  {
    if rec.status == StatusDone then AlreadyDone
    else
      match FindTask(catalog, rec.taskId)
      case None => TaskNotInCatalog
      case Some(t) => ShowTask(t)
  }

  /** `send_today_task(message, child)`. */
  method SendTodayTask(s: Storage, catalog: seq<TaskDef>, child: Child, today: Date, choice: nat)
    returns (reply: TodayReply)
    requires ValidDate(today)
    modifies s
    ensures s.children == old(s.children)
    ensures !IsDecember(today) ==> reply == NotDecember && s.tasks == old(s.tasks)
    ensures IsDecember(today) && HasRecord(old(s.tasks), TodayKey(child, today)) ==>
              s.tasks == old(s.tasks)
              && reply == ReplyForRecord(catalog, FindRecord(old(s.tasks), TodayKey(child, today)).value)
    ensures IsDecember(today) && !HasRecord(old(s.tasks), TodayKey(child, today)) ==>
              match TaskPicker.PickTask(catalog, child, today, old(s.tasks), child.id, choice)
              case Failure(_) => reply == NoEligibleTask && s.tasks == old(s.tasks)
              case Success(t) =>
                reply == ShowTask(t)
                && s.tasks == old(s.tasks) + [NewRecord(old(s.tasks), TodayKey(child, today), t.id)]
    ensures old(s.Valid()) ==> s.Valid()
  {
    if !IsDecember(today) {
      return NotDecember;
    }
    var rec := s.GetTaskRecord(child.id, today.year, today.month, today.day);
    if rec.Some? {
      return ReplyForRecord(catalog, rec.value);
    }
    var picked := TaskPicker.PickTask(catalog, child, today, s.tasks, child.id, choice);
    if picked.Failure? {
      return NoEligibleTask;
    }
    var task := picked.value;
    s.AddTaskRecord(child.id, today.year, today.month, today.day, task.id);
    reply := ShowTask(task);
  }

  /** Once today's record exists, asking again shows the same task (ids in the catalog being unique). */
  lemma NewRecordShowsSameTaskAgain(catalog: seq<TaskDef>, rs: seq<TaskRecord>, k: DayKey, t: TaskDef)
    requires UniqueTaskIds(catalog) && t in catalog
    requires !HasRecord(rs, k)
    ensures HasRecord(rs + [NewRecord(rs, k, t.id)], k)
    ensures ReplyForRecord(catalog, FindRecord(rs + [NewRecord(rs, k, t.id)], k).value) == ShowTask(t)
  {
    AddedRecordIsFound(rs, k, t.id);
    FindOwnTask(catalog, t);
  }

  /** `mark_done_for_child(message, child)`. */
  method MarkDoneForChild(s: Storage, child: Child, today: Date) returns (reply: MarkReply)
    modifies s
    ensures s.children == old(s.children)
    ensures !HasRecord(old(s.tasks), TodayKey(child, today)) ==> reply == NoTaskToday && s.tasks == old(s.tasks)
    ensures HasRecord(old(s.tasks), TodayKey(child, today)) ==>
              reply == MarkedDone && s.tasks == SetStatusAll(old(s.tasks), TodayKey(child, today), StatusDone)
    ensures old(s.Valid()) ==> s.Valid()
  {
    var rec := s.GetTaskRecord(child.id, today.year, today.month, today.day);
    if rec.None? {
      return NoTaskToday;
    }
    s.SetTaskStatus(child.id, today.year, today.month, today.day, StatusDone);
    reply := MarkedDone;
  }

  /** After marking today done, asking for today's task answers "already done". */
  lemma MarkedDayAnswersAlreadyDone(catalog: seq<TaskDef>, rs: seq<TaskRecord>, k: DayKey)
    requires HasRecord(rs, k)
    ensures HasRecord(SetStatusAll(rs, k, StatusDone), k)
    ensures ReplyForRecord(catalog, FindRecord(SetStatusAll(rs, k, StatusDone), k).value) == AlreadyDone
  {
    FindAfterSetStatus(rs, k, StatusDone);
  }

  /** `send_reroll_invoice(message, child)`: the reroll invoice for the child's local date. */
  function SendRerollInvoice(child: Child, today: Date): (inv: Payloads.Invoice)
    requires ValidDate(today)
    ensures inv.amount == 50
    ensures Payloads.ParseRerollPayload(inv.payload) == Some((child.id, today))
  {
    Payloads.RerollPayloadRoundTrip(child.id, today);
    Payloads.RerollInvoice(child.id, today)
  }
}
