/** The fixed timezone table of utils/timezones.py and its two lookups. */
module Timezones {

  datatype Zone = Zone(labelText: string, offset: int)

  /** `TIMEZONES`: the labels offered to the user and their UTC offsets in hours. */
  const Zones: seq<Zone> := [
    Zone("Москва (UTC+3)", 3),
    Zone("Санкт-Петербург (UTC+3)", 3),
    Zone("Новосибирск (UTC+7)", 7),
    Zone("Екатеринбург (UTC+5)", 5),
    Zone("London (UTC+0)", 0),
    Zone("New York (UTC-5)", -5)
  ]

  /** The labels of `zones`, in table order. */
  function Labels(zones: seq<Zone>): (labels: seq<string>)
    ensures |labels| == |zones|
    ensures forall i :: 0 <= i < |zones| ==> labels[i] == zones[i].labelText
  {
    if zones == [] then [] else [zones[0].labelText] + Labels(zones[1..])
  }

  /** `get_timezone_labels()`. */
  function TimezoneLabels(): (labels: seq<string>)
    ensures |labels| == |Zones|
    ensures forall i :: 0 <= i < |Zones| ==> labels[i] == Zones[i].labelText
  {
    Labels(Zones)
  }

  /** The offset of the first entry of `zones` labelled `text`, or 0 when there is none. */
  function OffsetIn(zones: seq<Zone>, text: string): (offset: int)
    ensures (forall i :: 0 <= i < |zones| ==> zones[i].labelText != text) ==> offset == 0
    ensures forall i ::
              (0 <= i < |zones| && zones[i].labelText == text
               && (forall j :: 0 <= j < i ==> zones[j].labelText != text)) ==> offset == zones[i].offset
  {
    if zones == [] then 0
    else if zones[0].labelText == text then zones[0].offset
    else OffsetIn(zones[1..], text)
  }

  /** `get_offset_by_label(label)`. */
  function OffsetByLabel(text: string): (offset: int)
    ensures (forall z :: z in Zones ==> z.labelText != text) ==> offset == 0
    ensures forall z :: z in Zones && z.labelText == text ==> offset == z.offset
  {
    LabelsAreDistinct();
    OffsetIn(Zones, text)
  }

  /** No two entries of the table share a label (their first letters already differ). */
  lemma LabelsAreDistinct()
    ensures forall i, j :: 0 <= i < j < |Zones| ==> Zones[i].labelText != Zones[j].labelText
  {
    forall i, j | 0 <= i < j < |Zones| ensures Zones[i].labelText != Zones[j].labelText {
      assert Zones[i].labelText[0] != Zones[j].labelText[0];
    }
  }

  /** Every label offered to the user maps back to its own entry's offset. */
  lemma OffsetOfEveryLabel()
    ensures forall i :: 0 <= i < |Zones| ==> OffsetByLabel(TimezoneLabels()[i]) == Zones[i].offset
  {
    LabelsAreDistinct();
  }

  /** An unknown label falls back to UTC. */
  lemma UnknownLabelIsUtc(text: string)
    requires text !in TimezoneLabels()
    ensures OffsetByLabel(text) == 0
  {
    assert forall i :: 0 <= i < |Zones| ==> TimezoneLabels()[i] == Zones[i].labelText;
  }

  /** Every offset of the table is a whole number of hours from UTC-5 to UTC+7. */
  lemma OffsetsInRange()
    ensures forall i :: 0 <= i < |Zones| ==> -5 <= Zones[i].offset <= 7
  {
  }
}
