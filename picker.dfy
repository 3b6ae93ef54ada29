/**
 * The task picker of models/task_picker.py: three filters over the catalog,
 * tried in order, and a random choice from the first non-empty one. The
 * random choice is the parameter `choice`, read as an index into that tier.
 */
module TaskPicker {
  import opened Wrappers
  import opened Seqs
  import opened Calendar
  import opened Catalog
  import opened Records

  /** The `ValueError` raised when no task covers the child's age. */
  datatype PickError = NoTasksForAge(age: int)

  /** The month `get_used_tasks` reads when its caller gives none. */
  const UsedTasksMonth: int := 12

  /** `get_used_tasks(child_id, storage, year, month)`: the task ids of the child's records of that month. */
  function UsedTasks(rs: seq<TaskRecord>, childId: int, year: int, month: int): (used: set<int>)
    ensures forall id :: id in used <==>
              exists r :: r in rs && r.childId == childId && r.year == year && r.month == month && r.taskId == id
  {
    set r | r in MonthRecords(rs, childId, year, month) :: r.taskId
  }

  /** Tier 1: covers the age, suits the day type, not used yet. */
  function StrictTier(catalog: seq<TaskDef>, age: int, dt: DayType, used: set<int>): seq<TaskDef> {
    Filter(catalog, (t: TaskDef) => Suits(t, age, dt) && t.id !in used)
  }

  /** Tier 2: covers the age and suits the day type. */
  function DayTypeTier(catalog: seq<TaskDef>, age: int, dt: DayType): seq<TaskDef> {
    Filter(catalog, (t: TaskDef) => Suits(t, age, dt))
  }

  /** Tier 3: covers the age. */
  function AgeTier(catalog: seq<TaskDef>, age: int): seq<TaskDef> {
    Filter(catalog, (t: TaskDef) => CoversAge(t, age))
  }

  /** The first non-empty tier, or the empty age tier when all are empty. */
  function WinningTier(catalog: seq<TaskDef>, age: int, dt: DayType, used: set<int>): seq<TaskDef> {
    var strict := StrictTier(catalog, age, dt, used);
    if strict != [] then strict
    else
      var relaxed := DayTypeTier(catalog, age, dt);
      if relaxed != [] then relaxed else AgeTier(catalog, age)
  }

  /** The tiered choice for a child of `age` on a day of type `dt`, avoiding the ids in `used`. */
  function PickFrom(catalog: seq<TaskDef>, age: int, dt: DayType, used: set<int>, choice: nat)
    : (r: Result<TaskDef, PickError>)
    ensures r.Failure? <==> forall t :: t in catalog ==> !CoversAge(t, age)
    ensures r.Failure? ==> r.error == NoTasksForAge(age)
    ensures r.Success? ==> r.value in catalog && CoversAge(r.value, age)
    ensures r.Success? && (exists t :: t in catalog && Suits(t, age, dt) && t.id !in used) ==>
              Suits(r.value, age, dt) && r.value.id !in used
    ensures r.Success? && (exists t :: t in catalog && Suits(t, age, dt)) ==> dt in r.value.dayTypes
  {
    var tier := WinningTier(catalog, age, dt, used);
    if tier == [] then Failure(NoTasksForAge(age)) else Success(tier[choice % |tier|])
  }

  /** `pick_task(child, date, storage, child_id)`, with the catalog and the stored records as inputs. */
  function PickTask(catalog: seq<TaskDef>, child: Child, d: Date, rs: seq<TaskRecord>, childId: int, choice: nat)
    : (r: Result<TaskDef, PickError>)
    requires ValidDate(d)
    ensures r.Failure? <==> forall t :: t in catalog ==> !CoversAge(t, child.age)
    ensures r.Success? ==> r.value in catalog && CoversAge(r.value, child.age)
    ensures r.Success? &&
            (exists t :: t in catalog && Suits(t, child.age, GetDayType(d)) &&
               !exists x :: x in rs && x.childId == childId && x.year == d.year && x.month == 12 && x.taskId == t.id)
            ==> Suits(r.value, child.age, GetDayType(d)) &&
                !exists x :: x in rs && x.childId == childId && x.year == d.year && x.month == 12 && x.taskId == r.value.id
    ensures r.Success? && (exists t :: t in catalog && Suits(t, child.age, GetDayType(d))) ==>
              GetDayType(d) in r.value.dayTypes
  {
    PickFrom(catalog, child.age, GetDayType(d), UsedTasks(rs, childId, d.year, UsedTasksMonth), choice)
  }

  /** The model does not narrow `random.choice`: every task of the winning tier can come out. */
  lemma EveryCandidateReachable(catalog: seq<TaskDef>, age: int, dt: DayType, used: set<int>, t: TaskDef)
    requires t in WinningTier(catalog, age, dt, used)
    ensures exists choice: nat :: PickFrom(catalog, age, dt, used, choice) == Success(t)
  {
    var tier := WinningTier(catalog, age, dt, used);
    var i :| 0 <= i < |tier| && tier[i] == t;
    SmallIndexIsItsOwnChoice(i, |tier|);
    PickIndexesWinningTier(catalog, age, dt, used, i);
  }

  lemma SmallIndexIsItsOwnChoice(i: nat, n: nat)
    requires i < n
    ensures i % n == i
  {
  }

  lemma PickIndexesWinningTier(catalog: seq<TaskDef>, age: int, dt: DayType, used: set<int>, choice: nat)
    requires WinningTier(catalog, age, dt, used) != []
    ensures var tier := WinningTier(catalog, age, dt, used);
            PickFrom(catalog, age, dt, used, choice) == Success(tier[choice % |tier|])
  {
  }

  /** What the picker can return is exactly the winning tier. */
  lemma PickIsFromWinningTier(catalog: seq<TaskDef>, age: int, dt: DayType, used: set<int>, choice: nat)
    ensures PickFrom(catalog, age, dt, used, choice).Success? ==>
              PickFrom(catalog, age, dt, used, choice).value in WinningTier(catalog, age, dt, used)
  {
  }

  /** Records of other months do not count as used: only month 12 is read. */
  lemma OtherMonthsAreNotUsed(rs: seq<TaskRecord>, r: TaskRecord, childId: int, year: int)
    requires r.month != UsedTasksMonth
    ensures UsedTasks(rs + [r], childId, year, UsedTasksMonth) == UsedTasks(rs, childId, year, UsedTasksMonth)
  {
    var a := UsedTasks(rs + [r], childId, year, UsedTasksMonth);
    var b := UsedTasks(rs, childId, year, UsedTasksMonth);
    forall id | id in a ensures id in b {
      var x :| x in rs + [r] && x.childId == childId && x.year == year && x.month == UsedTasksMonth && x.taskId == id;
      assert x in rs;
    }
    forall id | id in b ensures id in a {
      var x :| x in rs && x.childId == childId && x.year == year && x.month == UsedTasksMonth && x.taskId == id;
      assert x in rs + [r];
    }
  }

  /** The task ids of the child's records over the whole year. */
  function YearUsedTasks(rs: seq<TaskRecord>, childId: int, year: int): set<int> {
    set r | r in rs && r.childId == childId && r.year == year :: r.taskId
  }

  /** The month-12 reading equals the yearly one as long as every record lies in December. */
  lemma DecemberOnlyStoreUsesWholeYear(rs: seq<TaskRecord>, childId: int, year: int)
    requires forall r :: r in rs ==> r.month == 12
    ensures UsedTasks(rs, childId, year, UsedTasksMonth) == YearUsedTasks(rs, childId, year)
  {
    var a := UsedTasks(rs, childId, year, UsedTasksMonth);
    var b := YearUsedTasks(rs, childId, year);
    forall id | id in b ensures id in a {
      var x :| x in rs && x.childId == childId && x.year == year && x.taskId == id;
      assert x.month == UsedTasksMonth;
    }
  }

  /** Age 8 on 25 December 2025 with a matching Christmas task: the pick suits both. */
  lemma ChristmasScenario(catalog: seq<TaskDef>, rs: seq<TaskRecord>, child: Child, choice: nat)
    requires child.age == 8
    requires exists t :: t in catalog && CoversAge(t, 8) && ChristmasDay in t.dayTypes
    ensures PickTask(catalog, child, Date(2025, 12, 25), rs, child.id, choice).Success?
    ensures ChristmasDay in PickTask(catalog, child, Date(2025, 12, 25), rs, child.id, choice).value.dayTypes
  {
    ChristmasDay2025();
  }
}
