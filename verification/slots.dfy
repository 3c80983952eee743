/** The Friday slot calendar (`generateTimeSlots` in both clients): fixed-length appointments
    laid end to end from the opening time for as long as a whole appointment still ends by closing time. */
module Slots {
  import opened Wrappers
  import opened Text

  /** A wall-clock time `{ h, m }`. */
  datatype Time = Time(h: int, m: int)

  /** `minutes(h, m)`: minutes since midnight. */
  function Minutes(t: Time): int {
    t.h * 60 + t.m
  }

  /** `timeToStr`: hours and minutes, each `String(...).padStart(2, '0')`, joined by ':'. */
  function TimeToStr(t: Time): string {
    PadStart(IntToStr(t.h), 2, '0') + ":" + PadStart(IntToStr(t.m), 2, '0')
  }

  /** Reads an `HH:MM` string back. */
  function ParseTime(s: string): Option<Time> {
    if |s| == 5 && s[2] == ':' && AllDigits(s[..2]) && AllDigits(s[3..]) then
      Some(Time(ParseDigits(s[..2]), ParseDigits(s[3..])))
    else None
  }

  /** For hours and minutes in 0..99 the rendering is five characters, `HH:MM`, zero-padded. */
  lemma TimeToStrShape(t: Time)
    requires 0 <= t.h <= 99 && 0 <= t.m <= 99
    ensures TimeToStr(t) == FixedDigits(t.h, 2) + ":" + FixedDigits(t.m, 2)
    ensures |TimeToStr(t)| == 5 && TimeToStr(t)[2] == ':'
  {
    assert Pow10(2) == 100 by { assert Pow10(1) == 10; }
    assert IntToStr(t.h) == NatToStr(t.h) && IntToStr(t.m) == NatToStr(t.m);
    PaddedNatToStr(t.h, 2);
    PaddedNatToStr(t.m, 2);
  }

  lemma ParseTimeOfPieces(hh: string, mm: string)
    requires |hh| == 2 && |mm| == 2 && AllDigits(hh) && AllDigits(mm)
    ensures ParseTime(hh + ":" + mm) == Some(Time(ParseDigits(hh), ParseDigits(mm)))
  {
    var s := hh + ":" + mm;
    assert s[..2] == hh && s[3..] == mm && s[2] == ':';
  }

  /** Rendering a time and reading it back gives the same hours and minutes. */
  lemma TimeRoundTrip(t: Time)
    requires 0 <= t.h <= 99 && 0 <= t.m <= 99
    ensures ParseTime(TimeToStr(t)) == Some(t)
  {
    TimeToStrShape(t);
    assert Pow10(2) == 100 by { assert Pow10(1) == 10; }
    ParseTimeOfPieces(FixedDigits(t.h, 2), FixedDigits(t.m, 2));
    ParseFixedDigits(t.h, 2);
    ParseFixedDigits(t.m, 2);
  }

  // ---------------------------------------------------------------------------
  // Schedule and slot generation
  // ---------------------------------------------------------------------------

  /** Opening time, closing time and appointment length in minutes (`CONFIG.START_TIME`,
      `CONFIG.END_TIME`, `CONFIG.SLOT_DURATION_MIN`). */
  datatype Schedule = Schedule(start: Time, end: Time, duration: int)

  /** The shipped schedule: 15:15 to 20:30 in 40-minute appointments, identical in both clients
      and in the server configuration. */
  const Shipped := Schedule(Time(15, 15), Time(20, 30), 40)

  /** A slot of the grid: its start time (the per-chair cells are built separately). */
  datatype Slot = Slot(start: Time)

  /** JavaScript `%`: the remainder takes the sign of the dividend. */
  function JsRem(a: int, b: int): int
    requires b > 0
  {
    if a >= 0 then a % b else -((-a) % b)
  }

  /** The slot starting `cur` minutes after midnight: `h = Math.floor(cur / 60)`, `m = cur % 60`. */
  function SlotAt(cur: int): Slot {
    Slot(Time(cur / 60, JsRem(cur, 60)))
  }

  /** Reference definition: slots from minute `cur` while a whole appointment fits before `end`. */
  function SlotsFrom(cur: int, end: int, duration: int): seq<Slot>
    requires duration > 0
    decreases end - cur
  {
    if cur + duration <= end then [SlotAt(cur)] + SlotsFrom(cur + duration, end, duration) else []
  }

  function TimeSlots(s: Schedule): seq<Slot>
    requires s.duration > 0
  {
    SlotsFrom(Minutes(s.start), Minutes(s.end), s.duration)
  }

  /** Slot `i` starts `i` appointment lengths after `cur`, its minutes decompose back to that start,
      it ends by `end`, and one more slot would not. */
  lemma {:induction false} SlotsFromShape(cur: int, end: int, duration: int)
    requires duration > 0 && cur >= 0
    ensures var r := SlotsFrom(cur, end, duration);
      && (forall i :: 0 <= i < |r| ==>
            Minutes(r[i].start) == cur + i * duration && 0 <= r[i].start.m < 60
            && cur + i * duration + duration <= end)
      && cur + |r| * duration + duration > end
    decreases end - cur
  {
    var r := SlotsFrom(cur, end, duration);
    if cur + duration <= end {
      SlotsFromShape(cur + duration, end, duration);
      var rest := SlotsFrom(cur + duration, end, duration);
      assert r == [SlotAt(cur)] + rest;
      forall i | 0 < i < |r|
        ensures Minutes(r[i].start) == cur + i * duration && 0 <= r[i].start.m < 60
        ensures cur + i * duration + duration <= end
      {
        assert r[i] == rest[i - 1];
        MulStep(i, duration);
      }
      MulStep(|r|, duration);
    }
  }

  lemma MulStep(i: int, d: int)
    ensures (i - 1) * d + d == i * d
  {
  }

  /** `generateTimeSlots`: the loop of the clients, accumulating slots while `curMin + duration <= endMin`. */
  method GenerateTimeSlots(s: Schedule) returns (slots: seq<Slot>)
    requires s.duration > 0
    ensures slots == TimeSlots(s)
    ensures Minutes(s.start) >= 0 ==>
      && (forall i :: 0 <= i < |slots| ==>
            Minutes(slots[i].start) == Minutes(s.start) + i * s.duration
            && Minutes(slots[i].start) + s.duration <= Minutes(s.end))
      && Minutes(s.start) + |slots| * s.duration + s.duration > Minutes(s.end)
  {
    slots := [];
    var curMin := Minutes(s.start);
    var endMin := Minutes(s.end);
    while curMin + s.duration <= endMin
      invariant slots + SlotsFrom(curMin, endMin, s.duration) == TimeSlots(s)
      decreases endMin - curMin
    {
      slots := slots + [SlotAt(curMin)];
      curMin := curMin + s.duration;
    }
    if Minutes(s.start) >= 0 {
      SlotsFromShape(Minutes(s.start), endMin, s.duration);
    }
  }

  /** With the shipped constants: seven slots, 15:15 through 19:15 every 40 minutes; 19:55 would end at
      20:35, after closing, so there is no eighth slot. */
  lemma ShippedSlots()
    ensures Minutes(Shipped.start) == 915 && Minutes(Shipped.end) == 1230
    ensures |TimeSlots(Shipped)| == 7
    ensures TimeSlots(Shipped)[0].start == Time(15, 15)
    ensures TimeSlots(Shipped)[6].start == Time(19, 15)
    ensures Minutes(Time(19, 55)) + Shipped.duration > Minutes(Shipped.end)
  {
    SlotsFromShape(915, 1230, 40);
    var r := TimeSlots(Shipped);
    assert Minutes(r[6].start) == 1155 && 0 <= r[6].start.m < 60;
    assert r[6].start.h == 19;
  }

  /** The labels the grid shows for the shipped schedule. */
  lemma ShippedLabels()
    ensures forall i :: 0 <= i < |TimeSlots(Shipped)| ==> 0 <= TimeSlots(Shipped)[i].start.h <= 99
    ensures TimeToStr(TimeSlots(Shipped)[0].start) == "15:15"
    ensures TimeToStr(TimeSlots(Shipped)[6].start) == "19:15"
  {
    ShippedHours();
    ShippedSlots();
    LabelTexts();
  }

  lemma ShippedHours()
    ensures forall i :: 0 <= i < |TimeSlots(Shipped)| ==> 0 <= TimeSlots(Shipped)[i].start.h <= 99
  {
    SlotsFromShape(915, 1230, 40);
    var r := TimeSlots(Shipped);
    forall i | 0 <= i < |r|
      ensures 0 <= r[i].start.h <= 99
    {
      assert Minutes(r[i].start) == 915 + i * 40 && 0 <= r[i].start.m < 60;
    }
  }

  lemma LabelTexts()
    ensures TimeToStr(Time(15, 15)) == "15:15" && TimeToStr(Time(19, 15)) == "19:15"
  {
    LabelDigits();
    TimeToStrShape(Time(15, 15));
    TimeToStrShape(Time(19, 15));
  }

  lemma LabelDigits()
    ensures FixedDigits(15, 2) + ":" + FixedDigits(15, 2) == "15:15"
    ensures FixedDigits(19, 2) + ":" + FixedDigits(15, 2) == "19:15"
  {
  }
}
