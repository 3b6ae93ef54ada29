/**
 * The invoice payloads of handlers/tasks.py and handlers/payments.py,
 * `reload_task_{child_id}_{YYYYMMDD}`, `full_calendar_{child_id}_{year}` and
 * `donation_{amount}`, their prices, and how the payment callback takes them
 * apart with `split("_")`.
 */
module Payloads {
  import opened Wrappers
  import opened Text
  import opened Calendar

  const RerollPrefix: string := "reload_task_"
  const CalendarPrefix: string := "full_calendar_"
  const DonationPrefix: string := "donation_"

  /** Prices in Stars. */
  const StarPriceReroll: nat := 50
  const StarPriceFullCalendar: nat := 100
  const DonationPacks: seq<nat> := [200, 500, 1000]

  /** What is sent to the payment provider: the payload and the amount in Stars. */
  datatype Invoice = Invoice(payload: string, amount: nat)

  /** `d.strftime('%Y%m%d')`, the year zero-padded to four digits. */
  function EncodeDate(d: Date): (s: string)
    requires ValidDate(d)
    ensures |s| == 8 && AllDigits(s)
  {
    PadDigits(d.year, 4) + PadDigits(d.month, 2) + PadDigits(d.day, 2)
  }

  /** `datetime.strptime(s, '%Y%m%d').date()` for eight digits; `None` where it raises. */
  function DecodeDate(s: string): (r: Option<Date>)
    ensures r.Some? ==> ValidDate(r.value)
  {
    if |s| == 8 && AllDigits(s) then
      var d := Date(DigitsValue(s[..4]), DigitsValue(s[4..6]), DigitsValue(s[6..]));
      if ValidDate(d) then Some(d) else None
    else None
  }

  lemma DateRoundTrip(d: Date)
    requires ValidDate(d)
    ensures DecodeDate(EncodeDate(d)) == Some(d)
  {
    var s := EncodeDate(d);
    assert s[..4] == PadDigits(d.year, 4);
    assert s[4..6] == PadDigits(d.month, 2);
    assert s[6..] == PadDigits(d.day, 2);
    assert Pow10(2) == 100 && Pow10(4) == 10000;
    PadDigitsValue(d.year, 4);
    PadDigitsValue(d.month, 2);
    PadDigitsValue(d.day, 2);
  }

  /** `f"reload_task_{child_id}_{d.strftime('%Y%m%d')}"`. */
  function RerollPayload(childId: int, d: Date): string
    requires ValidDate(d)
  {
    RerollPrefix + IntToString(childId) + "_" + EncodeDate(d)
  }

  /** `send_reroll_invoice`: the reroll payload for the child's date, at 50 Stars. */
  function RerollInvoice(childId: int, d: Date): (inv: Invoice)
    requires ValidDate(d)
    ensures inv.amount == 50
    ensures StartsWith(inv.payload, RerollPrefix + IntToString(childId) + "_")
    ensures |inv.payload| == |RerollPrefix| + |IntToString(childId)| + 9
    ensures ParseRerollPayload(inv.payload) == Some((childId, d))
  {
    var p := RerollPayload(childId, d);
    RerollPayloadRoundTrip(childId, d);
    assert p[..|RerollPrefix + IntToString(childId) + "_"|] == RerollPrefix + IntToString(childId) + "_";
    Invoice(p, StarPriceReroll)
  }

  /** `f"full_calendar_{child_id}_{year}"`. */
  function CalendarPayload(childId: int, year: int): string {
    CalendarPrefix + IntToString(childId) + "_" + IntToString(year)
  }

  /** `send_full_calendar_invoice`: the calendar payload for the year, at 100 Stars. */
  function CalendarInvoice(childId: int, year: int): (inv: Invoice)
    ensures inv.amount == 100
    ensures StartsWith(inv.payload, CalendarPrefix)
    ensures ParseCalendarPayload(inv.payload) == Some((childId, year))
  {
    var p := CalendarPayload(childId, year);
    CalendarPayloadRoundTrip(childId, year);
    assert StartsWith(p, CalendarPrefix) by {
      assert p[..|CalendarPrefix|] == CalendarPrefix;
    }
    Invoice(p, StarPriceFullCalendar)
  }

  /** `f"donation_{amount}"`, at the donated amount. */
  function DonationInvoice(amount: nat): (inv: Invoice)
    ensures inv.amount == amount
    ensures StartsWith(inv.payload, DonationPrefix)
  {
    var p := DonationPrefix + IntToString(amount);
    assert p[..|DonationPrefix|] == DonationPrefix;
    Invoice(p, amount)
  }

  /** The reroll branch of `successful_payment_callback`: `parts = payload.split("_")`,
      `int(parts[2])`, then `strptime` on `"_".join(parts[3:])`; `None` where Python raises. */
  function ParseRerollPayload(payload: string): (r: Option<(int, Date)>)
    ensures r.Some? ==> |Split(payload, '_')| >= 4
    ensures r.Some? ==> ParseInt(Split(payload, '_')[2]) == Some(r.value.0)
    ensures r.Some? ==> ValidDate(r.value.1)
    ensures |Split(payload, '_')| < 4 ==> r.None?
  {
    var parts := Split(payload, '_');
    if |parts| < 3 then None
    else
      match ParseInt(parts[2])
      case None => None
      case Some(id) =>
        match DecodeDate(Join(parts[3..], '_'))
        case None => None
        case Some(d) => Some((id, d))
  }

  /** The calendar branch: `int(parts[2])` and `int(parts[3])`. */
  function ParseCalendarPayload(payload: string): (r: Option<(int, int)>)
    ensures r.Some? <==> |Split(payload, '_')| >= 4
                         && ParseInt(Split(payload, '_')[2]).Some? && ParseInt(Split(payload, '_')[3]).Some?
    ensures r.Some? ==> Some(r.value.0) == ParseInt(Split(payload, '_')[2])
                        && Some(r.value.1) == ParseInt(Split(payload, '_')[3])
  {
    var parts := Split(payload, '_');
    if |parts| < 4 then None
    else
      match ParseInt(parts[2])
      case None => None
      case Some(id) =>
        match ParseInt(parts[3])
        case None => None
        case Some(year) => Some((id, year))
  }

  /** The donation branch: `int(payload.split("_")[1])`. */
  function ParseDonationPayload(payload: string): (r: Option<int>)
    ensures |Split(payload, '_')| < 2 ==> r.None?
    ensures |Split(payload, '_')| >= 2 ==> r == ParseInt(Split(payload, '_')[1])
  {
    var parts := Split(payload, '_');
    if |parts| < 2 then None else ParseInt(parts[1])
  }

  lemma NoUnderscoreInNumber(i: int)
    ensures '_' !in IntToString(i)
  {
    var s := IntToString(i);
    assert forall k :: 0 <= k < |s| ==> s[k] != '_';
  }

  /** Four underscore-free fields joined by underscores split back into those fields. */
  lemma SplitFourFields(a: string, b: string, c: string, d: string)
    requires '_' !in a && '_' !in b && '_' !in c && '_' !in d
    ensures Split(a + "_" + b + "_" + c + "_" + d, '_') == [a, b, c, d]
  {
    var tail := c + ['_'] + d;
    var rest := b + ['_'] + tail;
    FieldsRegroup(a, b, c, d);
    SplitAfterField(a, rest, '_');
    SplitAfterField(b, tail, '_');
    SplitAfterField(c, d, '_');
    SplitWithoutSep(d, '_');
  }

  lemma FieldsRegroup(a: string, b: string, c: string, d: string)
    ensures a + "_" + b + "_" + c + "_" + d == a + ['_'] + (b + ['_'] + (c + ['_'] + d))
  {
  }

  /** The reroll payload parses back to the same child id and date. */
  lemma RerollPayloadRoundTrip(childId: int, d: Date)
    requires ValidDate(d)
    ensures StartsWith(RerollPayload(childId, d), RerollPrefix)
    ensures ParseRerollPayload(RerollPayload(childId, d)) == Some((childId, d))
  {
    var id := IntToString(childId);
    var date := EncodeDate(d);
    var p := RerollPayload(childId, d);
    assert StartsWith(p, RerollPrefix) by {
      assert p[..|RerollPrefix|] == RerollPrefix;
    }
    var parts := Split(p, '_');
    assert parts == ["reload", "task", id, date] by {
      NoUnderscoreInNumber(childId);
      assert '_' !in date by {
        assert forall k :: 0 <= k < |date| ==> date[k] != '_';
      }
      assert RerollPrefix == "reload" + "_" + "task" + "_";
      SplitFourFields("reload", "task", id, date);
    }
    assert parts[3..] == [date];
    assert Join(parts[3..], '_') == date;
    IntRoundTrip(childId);
    DateRoundTrip(d);
  }

  /** The calendar payload parses back to the same child id and year. */
  lemma CalendarPayloadRoundTrip(childId: int, year: int)
    ensures StartsWith(CalendarPayload(childId, year), CalendarPrefix)
    ensures ParseCalendarPayload(CalendarPayload(childId, year)) == Some((childId, year))
  {
    var id := IntToString(childId);
    var y := IntToString(year);
    var p := CalendarPayload(childId, year);
    assert StartsWith(p, CalendarPrefix) by {
      assert p[..|CalendarPrefix|] == CalendarPrefix;
    }
    assert Split(p, '_') == ["full", "calendar", id, y] by {
      NoUnderscoreInNumber(childId);
      NoUnderscoreInNumber(year);
      assert CalendarPrefix == "full" + "_" + "calendar" + "_";
      SplitFourFields("full", "calendar", id, y);
    }
    assert ParseInt(id) == Some(childId) by { IntRoundTrip(childId); }
    assert ParseInt(y) == Some(year) by { IntRoundTrip(year); }
  }

  /** The donation payload parses back to the same amount. */
  lemma DonationPayloadRoundTrip(amount: nat)
    ensures ParseDonationPayload(DonationInvoice(amount).payload) == Some(amount)
  {
    var a := IntToString(amount);
    var p := DonationPrefix + a;
    NoUnderscoreInNumber(amount);
    assert p == "donation" + ['_'] + a;
    SplitAfterField("donation", a, '_');
    SplitWithoutSep(a, '_');
    IntRoundTrip(amount);
  }
}
