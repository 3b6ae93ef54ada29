/**
 * The older picker of handlers/task_picker.py: the strict filter with an
 * explicit list of used ids, then straight to the age-only filter. There is
 * no day-type tier in between.
 */
module LegacyPicker {
  import opened Wrappers
  import opened Seqs
  import opened Calendar
  import opened Catalog
  import opened Records
  import TaskPicker

  /** The strict filter: covers the age, suits the day type, id not in `used`. */
  function StrictTier(catalog: seq<TaskDef>, age: int, dt: DayType, used: seq<int>): seq<TaskDef> {
    Filter(catalog, (t: TaskDef) => Suits(t, age, dt) && t.id !in used)
  }

  /** `pick_task(child, date, used_task_ids)`, with the catalog as input and `choice` for `random.choice`. */
  function PickTask(catalog: seq<TaskDef>, child: Child, d: Date, usedTaskIds: seq<int>, choice: nat)
    : (r: Result<TaskDef, TaskPicker.PickError>)
    requires ValidDate(d)
    ensures r.Failure? <==> forall t :: t in catalog ==> !CoversAge(t, child.age)
    ensures r.Success? ==> r.value in catalog && CoversAge(r.value, child.age)
    ensures r.Success? && (exists t :: t in catalog && Suits(t, child.age, GetDayType(d)) && t.id !in usedTaskIds) ==>
              Suits(r.value, child.age, GetDayType(d)) && r.value.id !in usedTaskIds
    ensures StrictTier(catalog, child.age, GetDayType(d), usedTaskIds) == [] && r.Success? ==>
              var ages := TaskPicker.AgeTier(catalog, child.age);
              r.value == ages[choice % |ages|]
  {
    var strict := StrictTier(catalog, child.age, GetDayType(d), usedTaskIds);
    var tier := if strict != [] then strict else TaskPicker.AgeTier(catalog, child.age);
    if tier == [] then Failure(TaskPicker.NoTasksForAge(child.age)) else Success(tier[choice % |tier|])
  }

  /**
   * Without the middle tier the legacy picker can hand out a task of the wrong day type
   * where the three-tier picker keeps the day type: on Saturday 6 December 2025, with the
   * only weekend task already used, the legacy picker may return the weekday task.
   */
  lemma LegacyMayIgnoreDayType()
    ensures var weekdayTask := TaskDef(1, 5, 10, [Weekday], "w");
            var weekendTask := TaskDef(2, 5, 10, [Weekend], "e");
            var child := Child(1, 1, "n", 8, "UTC", 0);
            var d := Date(2025, 12, 6);
            GetDayType(d) == Weekend &&
            PickTask([weekdayTask, weekendTask], child, d, [2], 0) == Success(weekdayTask) &&
            TaskPicker.PickFrom([weekdayTask, weekendTask], 8, Weekend, {2}, 0) == Success(weekendTask)
  {
    SaturdaySixthDecember2025();
    LegacyPicksWeekdayTask();
    TieredPicksWeekendTask();
  }

  lemma LegacyPicksWeekdayTask()
    ensures var weekdayTask := TaskDef(1, 5, 10, [Weekday], "w");
            var weekendTask := TaskDef(2, 5, 10, [Weekend], "e");
            PickTask([weekdayTask, weekendTask], Child(1, 1, "n", 8, "UTC", 0), Date(2025, 12, 6), [2], 0)
              == Success(weekdayTask)
  {
    var weekdayTask := TaskDef(1, 5, 10, [Weekday], "w");
    var weekendTask := TaskDef(2, 5, 10, [Weekend], "e");
    var catalog := [weekdayTask, weekendTask];
    SaturdaySixthDecember2025();
    assert StrictTier(catalog, 8, Weekend, [2]) == [] by {
      assert Weekend !in weekdayTask.dayTypes;
      FilterNone(catalog, (t: TaskDef) => Suits(t, 8, Weekend) && t.id !in [2]);
    }
    assert TaskPicker.AgeTier(catalog, 8) == catalog by {
      FilterAll(catalog, (t: TaskDef) => CoversAge(t, 8));
    }
  }

  lemma TieredPicksWeekendTask()
    ensures var weekdayTask := TaskDef(1, 5, 10, [Weekday], "w");
            var weekendTask := TaskDef(2, 5, 10, [Weekend], "e");
            TaskPicker.PickFrom([weekdayTask, weekendTask], 8, Weekend, {2}, 0) == Success(weekendTask)
  {
    var weekdayTask := TaskDef(1, 5, 10, [Weekday], "w");
    var weekendTask := TaskDef(2, 5, 10, [Weekend], "e");
    var catalog := [weekdayTask, weekendTask];
    var used: set<int> := {2};
    assert TaskPicker.StrictTier(catalog, 8, Weekend, used) == [] by {
      assert Weekend !in weekdayTask.dayTypes && weekendTask.id in used;
      FilterNone(catalog, (t: TaskDef) => Suits(t, 8, Weekend) && t.id !in used);
    }
    assert TaskPicker.DayTypeTier(catalog, 8, Weekend) == [weekendTask] by {
      assert catalog[1..] == [weekendTask] && catalog[1..][1..] == [];
      assert Weekend !in weekdayTask.dayTypes && Weekend in weekendTask.dayTypes;
    }
  }
}
