/**
 * The decisions of handlers/payments.py: parsing a donation amount, filling
 * a child's December calendar, and acting on a confirmed payment according to
 * its payload. The random choices of the picker are the parameter `choices`:
 * the pick for December day `d` uses `choices(d)`, a reroll uses `choices(0)`.
 */
module Payments {
  import opened Wrappers
  import opened Seqs
  import opened Text
  import opened Calendar
  import opened Catalog
  import opened Records
  import opened Store
  import opened Payloads
  import TaskPicker

  // ---------- donations ----------

  /** The value of the first all-digit word, if any. */
  function FirstNumber(words: seq<string>): (r: Option<nat>)
    ensures r.None? <==> forall i :: 0 <= i < |words| ==> !IsDecimal(words[i])
    ensures r.Some? ==> exists i :: 0 <= i < |words| && IsDecimal(words[i]) && DigitsValue(words[i]) == r.value
                          && forall j :: 0 <= j < i ==> !IsDecimal(words[j])
  {
    if words == [] then None
    else if IsDecimal(words[0]) then Some(DigitsValue(words[0]))
    else
      var r := FirstNumber(words[1..]);
      assert forall i :: 1 <= i < |words| ==> words[i] == words[1..][i - 1];
      assert r.Some? ==> exists i :: 1 <= i < |words| && IsDecimal(words[i]) && DigitsValue(words[i]) == r.value
                                     && forall j :: 0 <= j < i ==> !IsDecimal(words[j]) by {
        if r.Some? {
          var k :| 0 <= k < |words[1..]| && IsDecimal(words[1..][k]) && DigitsValue(words[1..][k]) == r.value
                   && forall j :: 0 <= j < k ==> !IsDecimal(words[1..][j]);
          assert words[k + 1] == words[1..][k];
        }
      }
      r
  }

  /** `parse_donation_amount(text)`. */
  function ParseDonationAmount(text: string): (r: Option<nat>)
    ensures r.None? <==> forall w :: w in Words(text) ==> !IsDecimal(w)
    ensures r.Some? ==> exists i :: 0 <= i < |Words(text)| && IsDecimal(Words(text)[i])
                          && DigitsValue(Words(text)[i]) == r.value
                          && forall j :: 0 <= j < i ==> !IsDecimal(Words(text)[j])
  {
    FirstNumber(Words(text))
  }

  /** `process_donation` goes on to the invoice only for an amount that is one of the packs. */
  predicate DonationAccepted(text: string): (ok: bool)
    ensures ok <==> exists p :: p in DonationPacks && ParseDonationAmount(text) == Some(p)
  {
    var amount := ParseDonationAmount(text);
    amount.Some? && amount.value != 0 && amount.value in DonationPacks
  }

  /** The text of a donation button, such as "⭐ 200 Stars". */
  function DonationButton(amount: nat): string {
    "⭐ " + NatToString(amount) + " Stars"
  }

  /** Three words joined by single spaces split back into the three words. */
  lemma WordsOfThree(a: string, b: string, c: string)
    requires |a| > 0 && NoSpace(a) && |b| > 0 && NoSpace(b) && |c| > 0 && NoSpace(c)
    ensures Words(a + " " + (b + " " + c)) == [a, b, c]
  {
    WordsOfSpacedWord(a, b + " " + c);
    WordsOfSpacedWord(b, c);
    WordsOfWord(c);
  }

  /** The amount shown on a button is the amount parsed from it. */
  lemma ButtonAmountParses(amount: nat)
    ensures ParseDonationAmount(DonationButton(amount)) == Some(amount)
  {
    var digits := NatToString(amount);
    var star, stars := "⭐", "Stars";
    assert DonationButton(amount) == star + " " + (digits + " " + stars);
    assert NoSpace(star) && NoSpace(stars);
    assert NoSpace(digits) by {
      assert forall i :: 0 <= i < |digits| ==> IsDigit(digits[i]);
    }
    WordsOfThree(star, digits, stars);
    assert !IsDecimal(star);
    var ws := [star, digits, stars];
    assert ws[1..] == [digits, stars];
    assert FirstNumber([digits, stars]) == Some(DigitsValue(digits));
    assert FirstNumber(ws) == FirstNumber(ws[1..]);
    NatToStringRoundTrip(amount);
  }

  /** Exactly the three pack buttons are accepted. */
  lemma ButtonAcceptedIffPack(amount: nat)
    ensures DonationAccepted(DonationButton(amount)) <==> amount in DonationPacks
  {
    ButtonAmountParses(amount);
  }

  // ---------- full December calendar ----------

  /** How `handle_full_calendar_free` ends. */
  datatype CalendarOutcome =
    | CalendarChildNotFound  // "child not found": nothing changes
    | InvalidYear            // `datetime.date(year, 12, 1)` raises: nothing changes
    | PickFailed(day: int)   // the picker raised on that day: earlier days stay saved
    | MissingTask(day: int)  // that day's record names no catalog task: earlier days stay saved
    | Filled

  function DecemberKey(childId: int, year: int, day: int): DayKey {
    DayKey(childId, year, 12, day)
  }

  /** The number of days among 1 to n of the child's December that have no record. */
  function MissingDays(rs: seq<TaskRecord>, childId: int, year: int, n: int): nat {
    if n <= 0 then 0
    else MissingDays(rs, childId, year, n - 1) + (if HasRecord(rs, DecemberKey(childId, year, n)) then 0 else 1)
  }

  /** A record the fill adds: new, for a December day that had none, with a catalog task. */
  predicate AddedForMissingDay(before: seq<TaskRecord>, r: TaskRecord, childId: int, year: int, catalog: seq<TaskDef>) {
    r.childId == childId && r.year == year && r.month == 12 && 1 <= r.day <= 31
    && r.status == StatusNew
    && !HasRecord(before, DecemberKey(childId, year, r.day))
    && exists t :: t in catalog && t.id == r.taskId
  }

  /** A December that holds no record of the child is missing all 31 days. */
  lemma {:induction false} EmptyDecemberMissesEveryDay(rs: seq<TaskRecord>, childId: int, year: int, n: int)
    requires MonthRecords(rs, childId, year, 12) == []
    requires 0 <= n <= 31
    ensures MissingDays(rs, childId, year, n) == n
  {
    if n > 0 {
      EmptyDecemberMissesEveryDay(rs, childId, year, n - 1);
    }
  }

  /** The records after `before` are new, for days before `day` that had none, with catalog tasks, in day order. */
  ghost predicate AddsOnlyMissingDays(before: seq<TaskRecord>, now: seq<TaskRecord>, childId: int, year: int,
                                      catalog: seq<TaskDef>, day: int)
  {
    |before| <= |now| && now[..|before|] == before
    && (forall j :: |before| <= j < |now| ==>
          AddedForMissingDay(before, now[j], childId, year, catalog) && now[j].day < day)
    && (forall i, j :: |before| <= i < j < |now| ==> now[i].day < now[j].day)
  }

  /** Every December day before `day` has a record. */
  ghost predicate CoversDaysBefore(now: seq<TaskRecord>, childId: int, year: int, day: int) {
    forall d :: 1 <= d < day ==> HasRecord(now, DecemberKey(childId, year, d))
  }

  /**
   * The state of the fill before December day `day`: only missing days were
   * added, one record each, and every earlier day now has a record.
   */
  ghost predicate FilledBefore(before: seq<TaskRecord>, now: seq<TaskRecord>, childId: int, year: int,
                               catalog: seq<TaskDef>, day: int)
  {
    1 <= day <= 32
    && AddsOnlyMissingDays(before, now, childId, year, catalog, day)
    && CoversDaysBefore(now, childId, year, day)
    && |now| == |before| + MissingDays(before, childId, year, day - 1)
  }

  lemma FillStarts(before: seq<TaskRecord>, childId: int, year: int, catalog: seq<TaskDef>)
    ensures FilledBefore(before, before, childId, year, catalog, 1)
  {
  }

  /** A day that already has a record had one before the fill: nothing is added, the day is done. */
  lemma FillSkipsRecordedDay(before: seq<TaskRecord>, now: seq<TaskRecord>, childId: int, year: int,
                             catalog: seq<TaskDef>, day: int)
    requires FilledBefore(before, now, childId, year, catalog, day) && day <= 31
    requires HasRecord(now, DecemberKey(childId, year, day))
    ensures FilledBefore(before, now, childId, year, catalog, day + 1)
    ensures HasRecord(before, DecemberKey(childId, year, day))
  {
    var k := DecemberKey(childId, year, day);
    var i :| 0 <= i < |now| && AtKey(now[i], k);
    assert before[i] == now[..|before|][i];
    assert HasRecord(before, k);
  }

  lemma AddingMissingDayKeepsOrder(before: seq<TaskRecord>, now: seq<TaskRecord>, childId: int, year: int,
                                   catalog: seq<TaskDef>, day: int, r: TaskRecord)
    requires AddsOnlyMissingDays(before, now, childId, year, catalog, day)
    requires AddedForMissingDay(before, r, childId, year, catalog) && r.day == day
    ensures AddsOnlyMissingDays(before, now + [r], childId, year, catalog, day + 1)
  {
    var next := now + [r];
    assert next[..|before|] == now[..|before|];
    forall j | |before| <= j < |next|
      ensures AddedForMissingDay(before, next[j], childId, year, catalog) && next[j].day < day + 1
    {
      if j < |now| {
        assert next[j] == now[j];
      }
    }
    forall i, j | |before| <= i < j < |next| ensures next[i].day < next[j].day {
      assert next[i] == now[i];
      if j < |now| {
        assert next[j] == now[j];
      }
    }
  }

  lemma AddingDayCoversIt(now: seq<TaskRecord>, childId: int, year: int, day: int, r: TaskRecord)
    requires CoversDaysBefore(now, childId, year, day)
    requires AtKey(r, DecemberKey(childId, year, day))
    ensures CoversDaysBefore(now + [r], childId, year, day + 1)
  {
    var next := now + [r];
    assert AtKey(next[|now|], DecemberKey(childId, year, day));
    forall d | 1 <= d < day ensures HasRecord(next, DecemberKey(childId, year, d)) {
      var i :| 0 <= i < |now| && AtKey(now[i], DecemberKey(childId, year, d));
      assert next[i] == now[i];
    }
  }

  /** Adding the record of a day that had none completes that day. */
  lemma FillAddsMissingDay(before: seq<TaskRecord>, now: seq<TaskRecord>, childId: int, year: int,
                           catalog: seq<TaskDef>, day: int, t: TaskDef, r: TaskRecord)
    requires FilledBefore(before, now, childId, year, catalog, day) && day <= 31
    requires !HasRecord(now, DecemberKey(childId, year, day))
    requires t in catalog
    requires AtKey(r, DecemberKey(childId, year, day)) && r.taskId == t.id && r.status == StatusNew
    ensures FilledBefore(before, now + [r], childId, year, catalog, day + 1)
  {
    var k := DecemberKey(childId, year, day);
    assert !HasRecord(before, k) by {
      forall i | 0 <= i < |before| ensures !AtKey(before[i], k) {
        assert before[i] == now[..|before|][i];
      }
    }
    assert AddedForMissingDay(before, r, childId, year, catalog);
    AddingMissingDayKeepsOrder(before, now, childId, year, catalog, day, r);
    AddingDayCoversIt(now, childId, year, day, r);
  }

  /** Every record after `before` names a catalog task for a child of `age`. */
  ghost predicate AddedTasksCoverAge(before: seq<TaskRecord>, now: seq<TaskRecord>, catalog: seq<TaskDef>, age: int) {
    |before| <= |now|
    && forall j :: |before| <= j < |now| ==> exists t :: t in catalog && t.id == now[j].taskId && CoversAge(t, age)
  }

  lemma AddedTaskCoversAge(before: seq<TaskRecord>, now: seq<TaskRecord>, catalog: seq<TaskDef>, age: int,
                           r: TaskRecord, t: TaskDef)
    requires AddedTasksCoverAge(before, now, catalog, age)
    requires t in catalog && t.id == r.taskId && CoversAge(t, age)
    ensures AddedTasksCoverAge(before, now + [r], catalog, age)
  {
    var next := now + [r];
    forall j | |before| <= j < |next|
      ensures exists u :: u in catalog && u.id == next[j].taskId && CoversAge(u, age)
    {
      if j < |now| {
        assert next[j] == now[j];
      } else {
        assert next[j] == r;
      }
    }
  }

  /** `r` names the task the picker returns for December day `day`, given the records `rs`. */
  ghost predicate PickedForDay(catalog: seq<TaskDef>, child: Child, childId: int, year: int, day: int, choice: nat,
                               rs: seq<TaskRecord>, r: TaskRecord)
    requires 1 <= year <= 9999 && 1 <= day <= 31
  {
    var p := TaskPicker.PickTask(catalog, child, Date(year, 12, day), rs, childId, choice);
    p.Success? && r.taskId == p.value.id && CoversAge(p.value, child.age)
  }

  /** A record whose task is not in the catalog was there before the fill: the fill adds only catalog tasks. */
  lemma UncataloguedRecordIsOld(before: seq<TaskRecord>, now: seq<TaskRecord>, childId: int, year: int,
                                catalog: seq<TaskDef>, day: int, k: DayKey)
    requires AddsOnlyMissingDays(before, now, childId, year, catalog, day)
    requires HasRecord(now, k)
    requires FindTask(catalog, FindRecord(now, k).value.taskId).None?
    ensures FindRecord(now, k).value in before
  {
    var r := FindRecord(now, k).value;
    var i :| 0 <= i < |now| && now[i] == r && AtKey(r, k);
    assert i < |before|;
    assert before[i] == now[..|before|][i];
  }

  /** At the end of a complete fill every December day has a record; an empty December gets 31. */
  lemma FillCompletes(before: seq<TaskRecord>, now: seq<TaskRecord>, childId: int, year: int, catalog: seq<TaskDef>)
    requires FilledBefore(before, now, childId, year, catalog, 32)
    ensures forall d :: 1 <= d <= 31 ==> HasRecord(now, DecemberKey(childId, year, d))
    ensures |now| == |before| + MissingDays(before, childId, year, 31)
    ensures MonthRecords(before, childId, year, 12) == [] ==> |now| == |before| + 31
  {
    if MonthRecords(before, childId, year, 12) == [] {
      EmptyDecemberMissesEveryDay(before, childId, year, 31);
    }
  }

  /**
   * One day of the fill loop: the day's record, created with the picker when
   * missing; None when the picker raises, in which case nothing changes.
   */
  method RecordForDay(s: Storage, catalog: seq<TaskDef>, child: Child, childId: int, year: int, day: int,
                      choice: nat, ghost before: seq<TaskRecord>)
    returns (rec: Option<TaskRecord>)
    requires 1 <= year <= 9999 && 1 <= day <= 31
    requires FilledBefore(before, s.tasks, childId, year, catalog, day)
    modifies s
    ensures s.children == old(s.children)
    ensures rec.None? ==> s.tasks == old(s.tasks) && forall t :: t in catalog ==> !CoversAge(t, child.age)
    ensures rec.Some? ==> FilledBefore(before, s.tasks, childId, year, catalog, day + 1)
    ensures rec.Some? ==> FindRecord(s.tasks, DecemberKey(childId, year, day)) == rec
    ensures HasRecord(old(s.tasks), DecemberKey(childId, year, day)) ==> s.tasks == old(s.tasks)
    ensures rec.Some? && !HasRecord(old(s.tasks), DecemberKey(childId, year, day)) ==>
              PickedForDay(catalog, child, childId, year, day, choice, old(s.tasks), rec.value)
              && s.tasks == old(s.tasks) + [rec.value]
    ensures AddedTasksCoverAge(before, old(s.tasks), catalog, child.age) ==>
              AddedTasksCoverAge(before, s.tasks, catalog, child.age)
    ensures old(s.Valid()) ==> s.Valid()
  {
    var k := DecemberKey(childId, year, day);
    rec := s.GetTaskRecord(childId, year, 12, day);
    if rec.Some? {
      FillSkipsRecordedDay(before, s.tasks, childId, year, catalog, day);
      return;
    }
    var picked := TaskPicker.PickTask(catalog, child, Date(year, 12, day), s.tasks, childId, choice);
    if picked.Failure? {
      return None;
    }
    if AddedTasksCoverAge(before, s.tasks, catalog, child.age) {
      AddedTaskCoversAge(before, s.tasks, catalog, child.age, NewRecord(s.tasks, k, picked.value.id), picked.value);
    }
    FillAddsMissingDay(before, s.tasks, childId, year, catalog, day, picked.value, NewRecord(s.tasks, k, picked.value.id));
    AddedRecordIsFound(s.tasks, k, picked.value.id);
    s.AddTaskRecord(childId, year, 12, day, picked.value.id);
    rec := s.GetTaskRecord(childId, year, 12, day);
  }

  /** The day loop of `handle_full_calendar_free`, for a known child and a valid year. */
  method FillDecember(s: Storage, catalog: seq<TaskDef>, child: Child, childId: int, year: int, choices: nat -> nat)
    returns (outcome: CalendarOutcome)
    requires FindChild(s.children, childId) == Some(child)
    requires 1 <= year <= 9999
    modifies s
    ensures s.children == old(s.children)
    ensures outcome.PickFailed? || outcome.MissingTask? || outcome == Filled
    ensures outcome.PickFailed? ==>
              1 <= outcome.day <= 31
              && FilledBefore(old(s.tasks), s.tasks, childId, year, catalog, outcome.day)
              && forall t :: t in catalog ==> !CoversAge(t, child.age)
    ensures outcome.MissingTask? ==>
              1 <= outcome.day <= 31
              && FilledBefore(old(s.tasks), s.tasks, childId, year, catalog, outcome.day + 1)
              && HasRecord(s.tasks, DecemberKey(childId, year, outcome.day))
              && FindTask(catalog, FindRecord(s.tasks, DecemberKey(childId, year, outcome.day)).value.taskId).None?
              && FindRecord(s.tasks, DecemberKey(childId, year, outcome.day)).value in old(s.tasks)
    ensures outcome == Filled ==> FilledBefore(old(s.tasks), s.tasks, childId, year, catalog, 32)
    ensures AddedTasksCoverAge(old(s.tasks), s.tasks, catalog, child.age)
    ensures (exists t :: t in catalog && CoversAge(t, child.age))
            && (forall r :: r in old(s.tasks) ==> exists t :: t in catalog && t.id == r.taskId)
            ==> outcome == Filled
    ensures old(s.Valid()) ==> s.Valid()
  {
    FillStarts(s.tasks, childId, year, catalog);
    var day := 1;
    while day <= 31
      invariant 1 <= day <= 32
      invariant s.children == old(s.children)
      invariant AddedTasksCoverAge(old(s.tasks), s.tasks, catalog, child.age)
      invariant FilledBefore(old(s.tasks), s.tasks, childId, year, catalog, day)
      invariant old(s.Valid()) ==> s.Valid()
    {
      var rec := RecordForDay(s, catalog, child, childId, year, day, choices(day), old(s.tasks));
      if rec.None? {
        return PickFailed(day);
      }
      if FindTask(catalog, rec.value.taskId).None? {
        UncataloguedRecordIsOld(old(s.tasks), s.tasks, childId, year, catalog, day + 1, DecemberKey(childId, year, day));
        return MissingTask(day);
      }
      day := day + 1;
    }
    outcome := Filled;
  }

  /** `handle_full_calendar_free(message, child_id, year)`: gives every December day a record. */
  method HandleFullCalendar(s: Storage, catalog: seq<TaskDef>, childId: int, year: int, choices: nat -> nat)
    returns (outcome: CalendarOutcome)
    modifies s
    ensures s.children == old(s.children)
    ensures outcome == CalendarChildNotFound <==> FindChild(old(s.children), childId).None?
    ensures outcome == InvalidYear <==> FindChild(old(s.children), childId).Some? && !(1 <= year <= 9999)
    ensures outcome == CalendarChildNotFound || outcome == InvalidYear ==> s.tasks == old(s.tasks)
    ensures outcome.PickFailed? ==>
              1 <= outcome.day <= 31
              && FilledBefore(old(s.tasks), s.tasks, childId, year, catalog, outcome.day)
              && forall t :: t in catalog ==> !CoversAge(t, FindChild(old(s.children), childId).value.age)
    ensures outcome.MissingTask? ==>
              1 <= outcome.day <= 31
              && FilledBefore(old(s.tasks), s.tasks, childId, year, catalog, outcome.day + 1)
              && HasRecord(s.tasks, DecemberKey(childId, year, outcome.day))
              && FindTask(catalog, FindRecord(s.tasks, DecemberKey(childId, year, outcome.day)).value.taskId).None?
              && FindRecord(s.tasks, DecemberKey(childId, year, outcome.day)).value in old(s.tasks)
    ensures outcome == Filled ==> FilledBefore(old(s.tasks), s.tasks, childId, year, catalog, 32)
    ensures FindChild(old(s.children), childId).Some? ==>
              AddedTasksCoverAge(old(s.tasks), s.tasks, catalog, FindChild(old(s.children), childId).value.age)
    ensures FindChild(old(s.children), childId).Some? && 1 <= year <= 9999
            && (exists t :: t in catalog && CoversAge(t, FindChild(old(s.children), childId).value.age))
            && (forall r :: r in old(s.tasks) ==> exists t :: t in catalog && t.id == r.taskId)
            ==> outcome == Filled
    ensures old(s.Valid()) ==> s.Valid()
  {
    var child := s.GetChild(childId);
    if child.None? {
      return CalendarChildNotFound;
    }
    if !(1 <= year <= 9999) {
      return InvalidYear;
    }
    outcome := FillDecember(s, catalog, child.value, childId, year, choices);
  }

  // ---------- confirmed payments ----------

  /** How `successful_payment_callback` ends. */
  datatype PaymentOutcome =
    | Malformed                 // the payload's fields do not parse: Python raises
    | ChildNotFound
    | NoEligibleTask            // the picker raised
    | Rerolled(task: TaskDef)
    | CalendarOpened(calendar: CalendarOutcome)
    | DonationThanks(amount: int)
    | GenericThanks

  /** `successful_payment_callback(message)`, dispatching on the payload prefix. */
  method SuccessfulPayment(s: Storage, catalog: seq<TaskDef>, payload: string, choices: nat -> nat)
    returns (outcome: PaymentOutcome)
    modifies s
    ensures s.children == old(s.children)
    ensures StartsWith(payload, RerollPrefix) ==>
              match ParseRerollPayload(payload)
              case None => outcome == Malformed && s.tasks == old(s.tasks)
              case Some((childId, d)) =>
                match FindChild(old(s.children), childId)
                case None => outcome == ChildNotFound && s.tasks == old(s.tasks)
                case Some(child) =>
                  match TaskPicker.PickTask(catalog, child, d, old(s.tasks), childId, choices(0))
                  case Failure(_) => outcome == NoEligibleTask && s.tasks == old(s.tasks)
                  case Success(t) =>
                    outcome == Rerolled(t)
                    && s.tasks == ReplaceTaskIdAll(old(s.tasks), DayKey(childId, d.year, d.month, d.day), t.id)
    ensures !StartsWith(payload, RerollPrefix) && StartsWith(payload, CalendarPrefix) ==>
              match ParseCalendarPayload(payload)
              case None => outcome == Malformed && s.tasks == old(s.tasks)
              case Some((childId, year)) =>
                outcome.CalendarOpened?
                && (FindChild(old(s.children), childId).None? ==> s.tasks == old(s.tasks))
                && |old(s.tasks)| <= |s.tasks| && s.tasks[..|old(s.tasks)|] == old(s.tasks)
                && (outcome.calendar == Filled ==>
                      forall d :: 1 <= d <= 31 ==> HasRecord(s.tasks, DecemberKey(childId, year, d)))
    ensures !StartsWith(payload, RerollPrefix) && !StartsWith(payload, CalendarPrefix) ==>
              s.tasks == old(s.tasks)
              && outcome == (if !StartsWith(payload, DonationPrefix) then GenericThanks
                             else match ParseDonationPayload(payload)
                                  case None => Malformed
                                  case Some(amount) => DonationThanks(amount))
    ensures old(s.Valid()) ==> s.Valid()
  {
    if StartsWith(payload, RerollPrefix) {
      var parsed := ParseRerollPayload(payload);
      if parsed.None? {
        return Malformed;
      }
      var (childId, d) := parsed.value;
      var child := s.GetChild(childId);
      if child.None? {
        return ChildNotFound;
      }
      var picked := TaskPicker.PickTask(catalog, child.value, d, s.tasks, childId, choices(0));
      if picked.Failure? {
        return NoEligibleTask;
      }
      var _ := s.UpdateTaskId(childId, d.year, d.month, d.day, picked.value.id);
      return Rerolled(picked.value);
    }
    if StartsWith(payload, CalendarPrefix) {
      var parsed := ParseCalendarPayload(payload);
      if parsed.None? {
        return Malformed;
      }
      var (childId, year) := parsed.value;
      var calendar := HandleFullCalendar(s, catalog, childId, year, choices);
      return CalendarOpened(calendar);
    }
    if StartsWith(payload, DonationPrefix) {
      var amount := ParseDonationPayload(payload);
      if amount.None? {
        return Malformed;
      }
      return DonationThanks(amount.value);
    }
    outcome := GenericThanks;
  }

  /** A paid reroll of an existing record: the lookup then shows the new task with status "new". */
  lemma RerollReplacesTask(rs: seq<TaskRecord>, k: DayKey, newTaskId: int)
    requires HasRecord(rs, k)
    ensures FindRecord(ReplaceTaskIdAll(rs, k, newTaskId), k).Some?
    ensures FindRecord(ReplaceTaskIdAll(rs, k, newTaskId), k).value.taskId == newTaskId
    ensures FindRecord(ReplaceTaskIdAll(rs, k, newTaskId), k).value.status == StatusNew
  {
    FindAfterReplaceTaskId(rs, k, newTaskId);
  }
}
