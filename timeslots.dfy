/**
 * The slot catalog of the booking service (backend/server.js:24-31).
 *
 * The server builds the day's bookable labels with a loop over the hours
 * 11..22, pushing "{hour}:00" for every hour and "{hour}:30" for every hour
 * but 22. The labels here are plain strings with an unpadded decimal hour.
 * The catalog is specified independently of that loop, as the labels of the
 * half-hour marks from opening to closing inclusive, and the loop is proved
 * to produce exactly that sequence.
 */
module TimeSlots {
  import opened Wrappers

  /** The first and last slot of the service day, in minutes after midnight. */
  const OpeningMinutes: nat := 11 * 60
  const ClosingMinutes: nat := 22 * 60
  /** Distance between two consecutive slots, in minutes. */
  const SlotLength: nat := 30
  /** Number of slots in the catalog, both ends included: (22:00 - 11:00) / 30 minutes + 1. */
  const SlotCount: nat := (22 * 60 - 11 * 60) / 30 + 1

  // ---------------------------------------------------------------------------
  // Decimal digits

  predicate IsDigit(c: char) {
    '0' <= c <= '9'
  }

  predicate AllDigits(s: string) {
    forall i | 0 <= i < |s| :: IsDigit(s[i])
  }

  function Digit(d: nat): (c: char)
    requires d < 10
    ensures IsDigit(c) && c as int - '0' as int == d
  {
    ('0' as int + d) as char
  }

  /** The decimal rendering of n without leading zeros, as a template literal renders an integer. */
  function NatToDecimal(n: nat): (s: string)
    ensures |s| >= 1 && AllDigits(s)
    ensures n < 10 <==> |s| == 1
    decreases n
  {
    if n < 10 then [Digit(n)] else NatToDecimal(n / 10) + [Digit(n % 10)]
  }

  /** The number a string of decimal digits denotes, most significant digit first. */
  function DecimalValue(s: string): nat
    requires AllDigits(s)
    decreases |s|
  {
    if s == [] then 0
    else DecimalValue(s[..|s| - 1]) * 10 + (s[|s| - 1] as int - '0' as int)
  }

  /** Reading back a rendered number gives the number. */
  lemma {:induction false} DecimalRoundTrip(n: nat)
    ensures DecimalValue(NatToDecimal(n)) == n
    decreases n
  {
    var s := NatToDecimal(n);
    if n < 10 {
      assert s[..0] == [];
    } else {
      DecimalRoundTrip(n / 10);
      assert s[..|s| - 1] == NatToDecimal(n / 10);
    }
  }

  // ---------------------------------------------------------------------------
  // Labels "H:MM"

  /** Two digits for a minute count below 60. */
  function TwoDigits(m: nat): (s: string)
    requires m < 60
  {
    [Digit(m / 10), Digit(m % 10)]
  }

  /** The label of the time of day m minutes after midnight: unpadded hour, colon, two-digit minutes. */
  function MinutesLabel(m: nat): (s: string)
  {
    NatToDecimal(m / 60) + ":" + TwoDigits(m % 60)
  }

  /**
   * The minute of the day a label denotes: the hour digits before the colon,
   * times 60, plus the two minute digits after it; None for anything else.
   */
  function ParseLabel(s: string): (r: Option<nat>)
  {
    if |s| < 4 || s[|s| - 3] != ':' then None
    else
      var hours, minutes := s[..|s| - 3], s[|s| - 2..];
      if !AllDigits(hours) || !AllDigits(minutes) || DecimalValue(minutes) >= 60 then None
      else Some(DecimalValue(hours) * 60 + DecimalValue(minutes))
  }

  /** The minute of the day of a label, or -1 when it is not a label. */
  function LabelMinutes(s: string): int
  {
    match ParseLabel(s)
    case Some(m) => m
    case None => -1
  }

  /** Every label can be read back as the time of day it was made from. */
  lemma MinutesLabelRoundTrip(m: nat)
    ensures ParseLabel(MinutesLabel(m)) == Some(m)
  {
    var h, mm := NatToDecimal(m / 60), TwoDigits(m % 60);
    var s := MinutesLabel(m);
    assert s == h + [':'] + mm;
    assert s[..|s| - 3] == h;
    assert s[|s| - 2..] == mm;
    DecimalRoundTrip(m / 60);
    var x := m % 60;
    assert mm[..1] == [Digit(x / 10)];
    assert [Digit(x / 10)][..0] == [];
    assert DecimalValue(mm[..1]) == x / 10;
    assert DecimalValue(mm) == (x / 10) * 10 + x % 10 == x;
  }

  /** Labels of different times of day differ. */
  lemma MinutesLabelInjective(m: nat, n: nat)
    ensures MinutesLabel(m) == MinutesLabel(n) <==> m == n
  {
    MinutesLabelRoundTrip(m);
    MinutesLabelRoundTrip(n);
  }

  /** Splitting 60 * hour + minute back into hour and minute. */
  lemma HourMinute(hour: nat, minute: nat)
    requires minute < 60
    ensures (60 * hour + minute) / 60 == hour && (60 * hour + minute) % 60 == minute
  {
  }

  /** The label the server builds from the decimal hour followed by ":00" or ":30" is the label of that time of day. */
  lemma HourLabels(hour: nat)
    ensures NatToDecimal(hour) + ":00" == MinutesLabel(60 * hour)
    ensures NatToDecimal(hour) + ":30" == MinutesLabel(60 * hour + 30)
  {
    var h := NatToDecimal(hour);
    var full, half := 60 * hour, 60 * hour + 30;
    HourMinute(hour, 0);
    HourMinute(hour, 30);
    assert full / 60 == hour && full % 60 == 0;
    assert half / 60 == hour && half % 60 == 30;
    assert MinutesLabel(full) == h + ":" + TwoDigits(0);
    assert MinutesLabel(half) == h + ":" + TwoDigits(30);
    OnTheHour(h);
    OnTheHalfHour(h);
  }

  lemma OnTheHour(h: string)
    ensures h + ":" + TwoDigits(0) == h + ":00"
  {
    assert TwoDigits(0) == "00";
  }

  lemma OnTheHalfHour(h: string)
    ensures h + ":" + TwoDigits(30) == h + ":30"
  {
    assert TwoDigits(30) == "30";
  }

  // ---------------------------------------------------------------------------
  // The catalog

  /** Start of the k-th slot of the day, in minutes after midnight. */
  function SlotStart(k: nat): (m: nat)
    ensures m == OpeningMinutes + SlotLength * k
  {
    660 + 30 * k
  }

  /** Label of the k-th slot of the day. */
  function SlotLabel(k: nat): string {
    MinutesLabel(SlotStart(k))
  }

  /** The day's catalog: one label per half-hour mark from opening to closing inclusive, in order. */
  function Catalog(): seq<string> {
    seq(SlotCount, k requires 0 <= k < SlotCount => SlotLabel(k))
  }

  /** The two slots of an hour of service start on the hour and half past it. */
  lemma HourSlotStarts(hour: nat)
    requires 11 <= hour <= 22
    ensures SlotStart(2 * (hour - 11)) == 60 * hour
    ensures SlotStart(2 * (hour - 11) + 1) == 60 * hour + 30
  {
  }

  /** The slots of an hour of service carry the labels of the hour and of half past it. */
  lemma HourSlotMinutes(hour: nat)
    requires 11 <= hour <= 22
    ensures SlotLabel(2 * (hour - 11)) == MinutesLabel(60 * hour)
    ensures SlotLabel(2 * (hour - 11) + 1) == MinutesLabel(60 * hour + 30)
  {
    HourSlotStarts(hour);
  }

  /** The two slots of an hour of service are labelled with the decimal hour followed by ":00" and ":30". */
  lemma HourSlots(hour: nat)
    requires 11 <= hour <= 22
    ensures SlotLabel(2 * (hour - 11)) == NatToDecimal(hour) + ":00"
    ensures SlotLabel(2 * (hour - 11) + 1) == NatToDecimal(hour) + ":30"
  {
    HourSlotMinutes(hour);
    HourLabels(hour);
  }

  /**
   * The server's loop (backend/server.js:24-31). The date is accepted and
   * ignored: whatever it is, the result is the catalog.
   */
  method GenerateTimeSlots(date: string) returns (slots: seq<string>)
    ensures slots == Catalog()
  {
    slots := [];
    var hour: nat := 11;
    while hour <= 22
      invariant 11 <= hour <= 23
      invariant |slots| == 2 * (hour - 11) - (if hour == 23 then 1 else 0)
      invariant forall k | 0 <= k < |slots| :: slots[k] == SlotLabel(k)
    {
      HourSlots(hour);
      slots := slots + [NatToDecimal(hour) + ":00"];
      if hour != 22 {
        slots := slots + [NatToDecimal(hour) + ":30"];
      }
      hour := hour + 1;
    }
  }

  /** The k-th catalog entry is the k-th slot's label. */
  lemma CatalogAt(k: nat)
    requires k < SlotCount
    ensures |Catalog()| == SlotCount && Catalog()[k] == SlotLabel(k)
  {
  }

  /** No time of day after closing has its label in the catalog. */
  lemma AfterClosingNotInCatalog(m: nat)
    requires m > ClosingMinutes
    ensures MinutesLabel(m) !in Catalog()
  {
    forall k | 0 <= k < |Catalog()|
      ensures Catalog()[k] != MinutesLabel(m)
    {
      CatalogAt(k);
      MinutesLabelInjective(SlotStart(k), m);
    }
  }

  /** The catalog has 23 labels, from "11:00" to "22:00", and never "22:30". */
  lemma CatalogBounds()
    ensures |Catalog()| == 23
    ensures Catalog()[0] == "11:00"
    ensures Catalog()[22] == "22:00"
    ensures "22:30" !in Catalog()
  {
    CatalogAt(0);
    CatalogAt(22);
    assert SlotLabel(0) == "11:00" by {
      HourSlots(11);
      assert NatToDecimal(11) == "11";
      assert "11" + ":00" == "11:00";
    }
    assert SlotLabel(22) == "22:00" && "22:30" == MinutesLabel(22 * 60 + 30) by {
      HourSlots(22);
      HourLabels(22);
      assert NatToDecimal(22) == "22";
      assert "22" + ":00" == "22:00" && "22" + ":30" == "22:30";
    }
    AfterClosingNotInCatalog(22 * 60 + 30);
  }

  /** Catalog entries read back as the k-th half-hour mark after opening. */
  lemma CatalogMinutes(k: nat)
    requires k < |Catalog()|
    ensures LabelMinutes(Catalog()[k]) == OpeningMinutes + 30 * k
  {
    CatalogAt(k);
    MinutesLabelRoundTrip(SlotStart(k));
  }

  /** Minutes of the day strictly increase along a sequence of labels. */
  ghost predicate Increasing(s: seq<string>) {
    forall i, j | 0 <= i < j < |s| :: LabelMinutes(s[i]) < LabelMinutes(s[j])
  }

  /** The catalog is strictly increasing, consecutive entries exactly 30 minutes apart. */
  lemma CatalogIncreasing()
    ensures Increasing(Catalog())
    ensures forall k | 0 < k < |Catalog()| :: LabelMinutes(Catalog()[k]) == LabelMinutes(Catalog()[k - 1]) + 30
  {
    forall k | 0 <= k < |Catalog()|
      ensures LabelMinutes(Catalog()[k]) == OpeningMinutes + 30 * k
    {
      CatalogMinutes(k);
    }
  }

  /** No label occurs twice. */
  ghost predicate Distinct(s: seq<string>) {
    forall i, j | 0 <= i < j < |s| :: s[i] != s[j]
  }

  /** No two catalog entries are equal. */
  lemma CatalogDistinct()
    ensures Distinct(Catalog())
  {
    CatalogIncreasing();
  }
}
