/** The counting behind `build_stats_text` in handlers/stats.py. */
module Stats {
  import opened Seqs
  import opened Text
  import opened Records

  /** The figures and the month label the statistics message shows. */
  datatype StatsSummary = StatsSummary(total: nat, done: nat, inProgress: int, monthName: string)

  const DecemberName: string := "декабрь"

  predicate IsDone(r: TaskRecord) { r.status == StatusDone }

  /** `sum(1 for r in records if r.get("status") == "done")`. */
  function CountDone(rs: seq<TaskRecord>): (n: nat)
    ensures n <= |rs|
    ensures n == |Filter(rs, IsDone)|
  {
    if rs == [] then 0 else (if IsDone(rs[0]) then 1 else 0) + CountDone(rs[1..])
  }

  /** December is named in words, every other month by its number. */
  function MonthName(month: int): (name: string)
    ensures name == DecemberName <==> month == 12
    ensures month != 12 ==> name == IntToString(month)
  {
    if month == 12 then DecemberName
    else
      var s := IntToString(month);
      assert s[0] != DecemberName[0];
      s
  }

  /** `build_stats_text(child, year, month)` without the message wording. */
  function BuildStats(rs: seq<TaskRecord>, child: Child, year: int, month: int): (s: StatsSummary)
    ensures s.total == |MonthRecords(rs, child.id, year, month)|
    ensures s.done == |Filter(MonthRecords(rs, child.id, year, month), IsDone)|
    ensures 0 <= s.done <= s.total
    ensures s.inProgress == s.total - s.done && s.inProgress >= 0
    ensures s.monthName == MonthName(month)
  {
    var records := MonthRecords(rs, child.id, year, month);
    var total := |records|;
    var done := CountDone(records);
    StatsSummary(total, done, total - done, MonthName(month))
  }

  /**
   * A month that had no records, after one record is added and marked done,
   * reports one task given and one done.
   */
  lemma OneDoneRecord(rs: seq<TaskRecord>, child: Child, year: int, month: int, day: int, taskId: int)
    requires MonthRecords(rs, child.id, year, month) == []
    ensures var k := DayKey(child.id, year, month, day);
            var after := SetStatusAll(rs + [NewRecord(rs, k, taskId)], k, StatusDone);
            BuildStats(after, child, year, month).total == 1 && BuildStats(after, child, year, month).done == 1
  {
    var k := DayKey(child.id, year, month, day);
    var n := NewRecord(rs, k, taskId);
    var after := SetStatusAll(rs + [n], k, StatusDone);
    var p := (x: TaskRecord) => x.childId == child.id && x.year == year && x.month == month;
    var front := SetStatusAll(rs, k, StatusDone);
    var marked := n.(status := StatusDone);
    assert MonthRecords(after, child.id, year, month) == [marked] by {
      assert after == front + [marked];
      forall x | x in front ensures !p(x) {
        var i :| 0 <= i < |front| && front[i] == x;
        assert rs[i] in rs;
      }
      FilterNone(front, p);
      FilterAppend(front, [marked], p);
    }
  }
}
