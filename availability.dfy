/** `GET /api/availability`: the 30-minute slots from 08:00 to 17:00 of a day
    that a doctor has no appointment at, compared by `HH:mm` label. */
module Availability {
  import opened Web
  import opened Seqs
  import opened Text
  import opened Calendar
  import opened Schema

  const Opening := 8 * MinutesPerHour
  const Closing := 17 * MinutesPerHour
  const SlotLength := 30

  /** The labels the grid can produce, in order. */
  const GridLabels: seq<string> := [
    "08:00", "08:30", "09:00", "09:30", "10:00", "10:30",
    "11:00", "11:30", "12:00", "12:30", "13:00", "13:30",
    "14:00", "14:30", "15:00", "15:30", "16:00", "16:30"]

  /** A minute of the day at which the grid has a slot. */
  predicate OnGrid(m: int) {
    Opening <= m < Closing && (m - Opening) % SlotLength == 0
  }

  /** The appointments the query reads: this doctor, inside
      `[dayStart, dayStart + 1 day)`, and not the excluded id. */
  predicate Counted(a: Appointment, doctor: int, day: int, exclude: Option<int>) {
    a.doctorId == doctor && InDayHalfOpen(a.date, day) && (exclude.Some? ==> a.id != exclude.value)
  }

  /** The set of booked `HH:mm` labels. */
  function BookedTimes(rows: seq<Appointment>, doctor: int, day: int, exclude: Option<int>): set<string> {
    set a | a in rows && Counted(a, doctor, day, exclude) :: HHmm(TimeOfDay(a.date))
  }

  /** The grid labels from minute `m` of the day up to closing time. */
  function GridFrom(m: nat): seq<string>
    decreases Closing - m
  {
    if m >= Closing then [] else [HHmm(m)] + GridFrom(m + SlotLength)
  }

  /** The grid labels from minute `m` up to closing time that are not booked. */
  function FreeFrom(booked: set<string>, m: nat): seq<string>
    decreases Closing - m
  {
    if m >= Closing then []
    else (if HHmm(m) in booked then [] else [HHmm(m)]) + FreeFrom(booked, m + SlotLength)
  }

  lemma FreeFromStep(booked: set<string>, m: nat)
    requires m < Closing
    ensures forall s :: s + FreeFrom(booked, m)
                        == (if HHmm(m) in booked then s else s + [HHmm(m)]) + FreeFrom(booked, m + SlotLength)
  {
  }

  /** The slot list the endpoint answers with. */
  function FreeSlots(rows: seq<Appointment>, doctor: int, day: int, exclude: Option<int>): seq<string> {
    FreeFrom(BookedTimes(rows, doctor, day, exclude), Opening)
  }

  /** The handler: 400 without a doctor or a date; 500 when `BigInt` cannot
      read the doctor id or a given `excludeId`, or when the store fails;
      otherwise the free slots, built by walking the grid. */
  method Get(rows: seq<Appointment>, doctorId: Option<string>, date: Option<int>, excludeId: Option<string>, fault: bool)
    returns (r: Response<seq<string>>)
    ensures !Given(doctorId) || date.None? <==> r == Error(BadRequest)
    ensures r == Error(ServerError) <==>
      Given(doctorId) && date.Some? && (fault || ParseBigInt(doctorId.value).None? || !Readable(excludeId))
    ensures r.Ok? <==>
      Given(doctorId) && date.Some? && !fault && ParseBigInt(doctorId.value).Some? && Readable(excludeId)
    ensures r.Ok? ==>
      r.body == FreeSlots(rows, ParseBigInt(doctorId.value).value, date.value, OptionalId(excludeId))
  {
    if !Given(doctorId) || date.None? {
      return Error(BadRequest);
    }
    var doctor := ParseBigInt(doctorId.value);
    if doctor.None? || !Readable(excludeId) || fault {
      return Error(ServerError);
    }
    var exclude := OptionalId(excludeId);
    var slots := WalkGrid(date.value, BookedTimes(rows, doctor.value, date.value, exclude));
    return Ok(slots);
  }

  /** The loop of the handler: from 08:00 of day `day`, every 30 minutes
      while before 17:00, keep the label unless it is booked. */
  method WalkGrid(day: int, booked: set<string>) returns (slots: seq<string>)
    ensures slots == FreeFrom(booked, Opening)
  {
    var dayStart := DayStart(day);
    slots := [];
    var current := dayStart + Opening;
    var end := dayStart + Closing;
    while current < end
      invariant current >= dayStart + Opening
      invariant slots + FreeFrom(booked, current - dayStart) == FreeFrom(booked, Opening)
      decreases end - current
    {
      TimeOfDayInDay(day, current - dayStart);
      var timeStr := HHmm(TimeOfDay(current));
      FreeFromStep(booked, current - dayStart);
      if timeStr !in booked {
        slots := slots + [timeStr];
      }
      current := current + SlotLength;
    }
    assert slots == slots + FreeFrom(booked, current - dayStart);
  }

  /** One step of the walk: the label of minute `m`, then the rest. */
  lemma GridStep(m: nat, l: string)
    requires m < Closing && HHmm(m) == l
    ensures GridFrom(m) == [l] + GridFrom(m + SlotLength)
  {
  }

  lemma Labels0800()
    ensures HHmm(480) == "08:00" && HHmm(510) == "08:30" && HHmm(540) == "09:00"
  {
  }

  lemma GridFrom0800()
    ensures GridFrom(480) == ["08:00", "08:30", "09:00"] + GridFrom(570)
  {
    Labels0800();
    GridStep(540, "09:00");
    GridStep(510, "08:30");
    GridStep(480, "08:00");
  }

  lemma Labels0930()
    ensures HHmm(570) == "09:30" && HHmm(600) == "10:00" && HHmm(630) == "10:30"
  {
  }

  lemma GridFrom0930()
    ensures GridFrom(570) == ["09:30", "10:00", "10:30"] + GridFrom(660)
  {
    Labels0930();
    GridStep(630, "10:30");
    GridStep(600, "10:00");
    GridStep(570, "09:30");
  }

  lemma Labels1100()
    ensures HHmm(660) == "11:00" && HHmm(690) == "11:30" && HHmm(720) == "12:00"
  {
  }

  lemma GridFrom1100()
    ensures GridFrom(660) == ["11:00", "11:30", "12:00"] + GridFrom(750)
  {
    Labels1100();
    GridStep(720, "12:00");
    GridStep(690, "11:30");
    GridStep(660, "11:00");
  }

  lemma Labels1230()
    ensures HHmm(750) == "12:30" && HHmm(780) == "13:00" && HHmm(810) == "13:30"
  {
  }

  lemma GridFrom1230()
    ensures GridFrom(750) == ["12:30", "13:00", "13:30"] + GridFrom(840)
  {
    Labels1230();
    GridStep(810, "13:30");
    GridStep(780, "13:00");
    GridStep(750, "12:30");
  }

  lemma Labels1400()
    ensures HHmm(840) == "14:00" && HHmm(870) == "14:30" && HHmm(900) == "15:00"
  {
  }

  lemma GridFrom1400()
    ensures GridFrom(840) == ["14:00", "14:30", "15:00"] + GridFrom(930)
  {
    Labels1400();
    GridStep(900, "15:00");
    GridStep(870, "14:30");
    GridStep(840, "14:00");
  }

  lemma Labels1530()
    ensures HHmm(930) == "15:30" && HHmm(960) == "16:00" && HHmm(990) == "16:30"
  {
  }

  lemma GridFrom1530()
    ensures GridFrom(930) == ["15:30", "16:00", "16:30"] + GridFrom(1020)
  {
    Labels1530();
    GridStep(990, "16:30");
    GridStep(960, "16:00");
    GridStep(930, "15:30");
  }

  /** The grid walk produces exactly the eighteen labels 08:00 .. 16:30. */
  lemma GridIsLabels()
    ensures GridFrom(Opening) == GridLabels
  {
    GridFrom0800();
    GridFrom0930();
    GridFrom1100();
    GridFrom1230();
    GridFrom1400();
    GridFrom1530();
    assert GridFrom(Closing) == [];
  }

  /** The minute a label stands for; the key of the list's ascending order. */
  function LabelMinute(l: string): int {
    match ParseHHmm(l)
    case Some(m) => m
    case None => -1
  }

  /** The `i`-th label from minute `m` on is the label of minute `m + 30 i`. */
  lemma {:induction false} GridFromAt(m: nat, i: nat)
    requires i < |GridFrom(m)|
    ensures m + SlotLength * i < Closing && GridFrom(m)[i] == HHmm(m + SlotLength * i)
    decreases i
  {
    if i > 0 {
      GridFromAt(m + SlotLength, i - 1);
    }
  }

  /** The `i`-th grid label is the label of minute 08:00 + 30 i. */
  lemma GridAt(i: nat)
    requires i < |GridLabels|
    ensures OnGrid(Opening + SlotLength * i)
    ensures GridLabels[i] == HHmm(Opening + SlotLength * i)
  {
    GridIsLabels();
    GridFromAt(Opening, i);
  }

  /** The `i`-th grid label reads back as minute 08:00 + 30 i. */
  lemma GridMinuteAt(i: nat)
    requires i < |GridLabels|
    ensures LabelMinute(GridLabels[i]) == Opening + SlotLength * i
  {
    GridAt(i);
    ParseFormat(Opening + SlotLength * i);
  }

  /** The grid labels are exactly the labels of the grid minutes. */
  lemma GridLabelsAreGrid(x: string)
    ensures x in GridLabels <==> exists k :: OnGrid(k) && x == HHmm(k)
  {
    if i :| 0 <= i < |GridLabels| && GridLabels[i] == x {
      GridAt(i);
    }
    if k :| OnGrid(k) && x == HHmm(k) {
      var i := (k - Opening) / SlotLength;
      GridAt(i);
    }
  }

  lemma GridAscending()
    ensures StrictlySortedBy(GridLabels, LabelMinute)
  {
    forall i, j | 0 <= i < j < |GridLabels| ensures LabelMinute(GridLabels[i]) < LabelMinute(GridLabels[j]) {
      GridMinuteAt(i);
      GridMinuteAt(j);
    }
  }

  /** The labels a set of booked times leaves free. */
  function Unbooked(booked: set<string>): string -> bool {
    l => l !in booked
  }

  /** Reference definition: the answer is the grid with the booked labels
      struck out, so it is a subsequence of the grid. */
  lemma {:induction false} FreeFromIsFilteredGrid(booked: set<string>, m: nat)
    ensures FreeFrom(booked, m) == Filter(GridFrom(m), Unbooked(booked))
    decreases Closing - m
  {
    if m < Closing {
      var g, rest := GridFrom(m), GridFrom(m + SlotLength);
      FreeFromIsFilteredGrid(booked, m + SlotLength);
      assert g == [HHmm(m)] + rest;
      assert g[0] == HHmm(m) && g[1..] == rest;
    }
  }

  lemma FreeSlotsIsFilteredGrid(rows: seq<Appointment>, doctor: int, day: int, exclude: Option<int>)
    ensures FreeSlots(rows, doctor, day, exclude) == Filter(GridLabels, Unbooked(BookedTimes(rows, doctor, day, exclude)))
  {
    FreeFromIsFilteredGrid(BookedTimes(rows, doctor, day, exclude), Opening);
    GridIsLabels();
  }

  /** Grid labels stand for minutes before 17:00. */
  lemma GridBeforeClosing(x: string)
    requires x in GridLabels
    ensures LabelMinute(x) < Closing
  {
    var i :| 0 <= i < |GridLabels| && GridLabels[i] == x;
    GridMinuteAt(i);
  }

  /** Whatever is booked, the free labels are grid labels in strictly
      ascending order. */
  lemma FreeFromAscending(booked: set<string>)
    ensures StrictlySortedBy(FreeFrom(booked, Opening), LabelMinute)
    ensures forall x :: x in FreeFrom(booked, Opening) ==> x in GridLabels
  {
    FreeFromIsFilteredGrid(booked, Opening);
    GridIsLabels();
    GridAscending();
    FilterStrictlySorted(GridLabels, Unbooked(booked), LabelMinute);
  }

  /** The answer lists grid labels only, strictly ascending, and never 17:00. */
  lemma FreeSlotsAscending(rows: seq<Appointment>, doctor: int, day: int, exclude: Option<int>)
    ensures StrictlySortedBy(FreeSlots(rows, doctor, day, exclude), LabelMinute)
    ensures forall x :: x in FreeSlots(rows, doctor, day, exclude) ==> x in GridLabels
    ensures "17:00" !in FreeSlots(rows, doctor, day, exclude)
  {
    var free := FreeSlots(rows, doctor, day, exclude);
    FreeFromAscending(BookedTimes(rows, doctor, day, exclude));
    if "17:00" in free {
      GridBeforeClosing("17:00");
    }
  }

  /** A grid label is offered iff no counted appointment of the doctor that
      day is at that time of day. */
  lemma SlotOfferedIff(rows: seq<Appointment>, doctor: int, day: int, exclude: Option<int>, m: int)
    requires OnGrid(m)
    ensures HHmm(m) in FreeSlots(rows, doctor, day, exclude)
        <==> !exists a :: a in rows && Counted(a, doctor, day, exclude) && TimeOfDay(a.date) == m
  {
    var booked := BookedTimes(rows, doctor, day, exclude);
    FreeSlotsIsFilteredGrid(rows, doctor, day, exclude);
    GridLabelsAreGrid(HHmm(m));
    if a :| a in rows && Counted(a, doctor, day, exclude) && HHmm(TimeOfDay(a.date)) == HHmm(m) {
      FormatInjective(TimeOfDay(a.date), m);
    }
  }

  /** Appointments that are not counted (another doctor, another day, the
      excluded id) do not change the answer. */
  lemma OnlyCountedMatter(rows1: seq<Appointment>, rows2: seq<Appointment>, doctor: int, day: int, exclude: Option<int>)
    requires forall a :: Counted(a, doctor, day, exclude) ==> (a in rows1 <==> a in rows2)
    ensures FreeSlots(rows1, doctor, day, exclude) == FreeSlots(rows2, doctor, day, exclude)
  {
    assert BookedTimes(rows1, doctor, day, exclude) == BookedTimes(rows2, doctor, day, exclude);
  }

  /** `excludeId` answers as if that appointment were not in the table. */
  lemma ExcludeIsRemoval(rows: seq<Appointment>, doctor: int, day: int, id: int)
    ensures FreeSlots(rows, doctor, day, Some(id)) == FreeSlots(Without(rows, id), doctor, day, None)
  {
    assert BookedTimes(rows, doctor, day, Some(id)) == BookedTimes(Without(rows, id), doctor, day, None);
  }

  /** Striking out a label that is not on the grid changes nothing. */
  lemma {:induction false} FreeFromIgnoresOffGrid(booked: set<string>, l: string, m: nat)
    requires l !in GridFrom(m)
    ensures FreeFrom(booked + {l}, m) == FreeFrom(booked, m)
    decreases Closing - m
  {
    if m < Closing {
      FreeFromIgnoresOffGrid(booked, l, m + SlotLength);
    }
  }

  /** A booking whose time is off the 30-minute grid (09:15, say) frees and
      blocks nothing. */
  lemma OffGridBookingBlocksNothing(rows: seq<Appointment>, doctor: int, day: int, exclude: Option<int>, a: Appointment)
    requires !OnGrid(TimeOfDay(a.date))
    ensures FreeSlots(rows + [a], doctor, day, exclude) == FreeSlots(rows, doctor, day, exclude)
  {
    var booked := BookedTimes(rows, doctor, day, exclude);
    var l := HHmm(TimeOfDay(a.date));
    if Counted(a, doctor, day, exclude) {
      assert BookedTimes(rows + [a], doctor, day, exclude) == booked + {l};
      GridIsLabels();
      GridLabelsAreGrid(l);
      if k :| OnGrid(k) && l == HHmm(k) {
        FormatInjective(k, TimeOfDay(a.date));
      }
      FreeFromIgnoresOffGrid(booked, l, Opening);
    } else {
      assert BookedTimes(rows + [a], doctor, day, exclude) == booked;
    }
  }

  /** Striking a set of labels out of a list without repeats removes one
      entry per struck label that occurs in it. */
  lemma {:induction false} StrikeOutCount(s: seq<string>, booked: set<string>)
    requires forall i, j :: 0 <= i < j < |s| ==> s[i] != s[j]
    ensures |Filter(s, Unbooked(booked))| == |s| - |booked * (set x | x in s)|
  {
    if s != [] {
      var h, rest := s[0], s[1..];
      StrikeOutCount(rest, booked);
      var restSet := set x | x in rest;
      assert h !in restSet;
      assert (set x | x in s) == {h} + restSet;
      if h in booked {
        assert booked * ({h} + restSet) == {h} + booked * restSet;
      } else {
        assert booked * ({h} + restSet) == booked * restSet;
      }
    }
  }

  /** The answer has 18 entries less one per distinct booked grid label. */
  lemma FreeSlotsCount(rows: seq<Appointment>, doctor: int, day: int, exclude: Option<int>)
    ensures |FreeSlots(rows, doctor, day, exclude)|
         == 18 - |BookedTimes(rows, doctor, day, exclude) * (set x | x in GridLabels)|
  {
    FreeSlotsIsFilteredGrid(rows, doctor, day, exclude);
    GridAscending();
    StrikeOutCount(GridLabels, BookedTimes(rows, doctor, day, exclude));
  }

  /** With nothing counted, every slot from 08:00 to 16:30 is offered. */
  lemma NoBookingsFullGrid(rows: seq<Appointment>, doctor: int, day: int, exclude: Option<int>)
    requires forall a :: a in rows ==> !Counted(a, doctor, day, exclude)
    ensures FreeSlots(rows, doctor, day, exclude) == GridLabels
  {
    assert BookedTimes(rows, doctor, day, exclude) == {};
    FreeFromNothingBooked(Opening);
    GridIsLabels();
  }

  lemma {:induction false} FreeFromNothingBooked(m: nat)
    ensures FreeFrom({}, m) == GridFrom(m)
    decreases Closing - m
  {
    if m < Closing {
      FreeFromNothingBooked(m + SlotLength);
    }
  }

  /** A counted appointment's own time is never offered. */
  lemma BookedNotOffered(rows: seq<Appointment>, doctor: int, day: int, exclude: Option<int>, a: Appointment)
    requires a in rows && Counted(a, doctor, day, exclude)
    ensures HHmm(TimeOfDay(a.date)) !in FreeSlots(rows, doctor, day, exclude)
  {
    FreeSlotsIsFilteredGrid(rows, doctor, day, exclude);
  }
}
