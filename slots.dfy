/**
 * Slot arithmetic of the appointment engine (controllers/ticket_controller.py):
 * rounding the clock up to the 30-minute grid, the weekday map, and a
 * reference definition of the slot finder together with the lemmas that
 * say what the slot it returns is.
 *
 * Days are proleptic Gregorian ordinals (Python's `date.toordinal()`, day 1
 * is Monday 0001-01-01), times of day are whole minutes.
 */
module Slots {
  import opened Wrappers
  import opened Ledger

  /** SLOT_DURATION_MINUTES: shared by rounding and stepping. */
  const SlotMinutes := 30
  const MinutesPerDay := 1440
  const SecondsPerDay := 86400
  /** Number of calendar days the finder scans. */
  const HorizonDays := 30

  /** A clock reading: a day number and the second of that day. */
  datatype Instant = Instant(day: int, second: int)

  /** A point on the minute grid: a day number and a minute of that day. */
  datatype Moment = Moment(day: int, minute: int)

  predicate ValidInstant(now: Instant)
  {
    0 <= now.second < SecondsPerDay
  }

  /** The whole minutes elapsed since day 0 at `now`, seconds dropped. */
  function MinuteOf(now: Instant): int
  {
    now.day * MinutesPerDay + now.second / 60
  }

  function AbsMinute(m: Moment): int
  {
    m.day * MinutesPerDay + m.minute
  }

  function Max(a: int, b: int): int
  {
    if a >= b then a else b
  }

  // ---------------------------------------------------------------------
  // _round_up_time
  // ---------------------------------------------------------------------

  /**
   * Drops the seconds of `now` and rounds the minute up to the next multiple
   * of the slot length; 23:31 and later round to 00:00 of the next day.
   */
  function RoundUpTime(now: Instant): (r: Moment)
    requires ValidInstant(now)
    ensures 0 <= r.minute < MinutesPerDay && r.minute % SlotMinutes == 0
    ensures MinuteOf(now) <= AbsMinute(r) < MinuteOf(now) + SlotMinutes
  {
    var m := now.second / 60;
    var minutes := (m + SlotMinutes - 1) / SlotMinutes * SlotMinutes;
    Moment(now.day + minutes / MinutesPerDay, minutes % MinutesPerDay)
  }

  /** Rounding stays on the same day exactly up to 23:30, and otherwise lands on midnight. */
  lemma RoundUpCrossesDayOnlyPast2330(now: Instant)
    requires ValidInstant(now)
    ensures RoundUpTime(now).day == now.day <==> now.second / 60 <= MinutesPerDay - SlotMinutes
    ensures RoundUpTime(now).day != now.day ==> RoundUpTime(now) == Moment(now.day + 1, 0)
  {
    var m := now.second / 60;
    assert 0 <= m < MinutesPerDay;
  }

  /** A minute already on the grid is returned unchanged. */
  lemma RoundUpKeepsAligned(now: Instant)
    requires ValidInstant(now)
    requires (now.second / 60) % SlotMinutes == 0
    ensures RoundUpTime(now) == Moment(now.day, now.second / 60)
  {
    var r := RoundUpTime(now);
    var m := now.second / 60;
    RoundUpCrossesDayOnlyPast2330(now);
    assert m <= MinutesPerDay - SlotMinutes;
    assert r.day == now.day;
  }

  /** Rounding is idempotent: rounding a rounded reading gives it back. */
  lemma RoundUpIdempotent(now: Instant)
    requires ValidInstant(now)
    ensures var r := RoundUpTime(now); RoundUpTime(Instant(r.day, r.minute * 60)) == r
  {
    var r := RoundUpTime(now);
    var again := Instant(r.day, r.minute * 60);
    assert again.second / 60 == r.minute;
    RoundUpKeepsAligned(again);
  }

  // ---------------------------------------------------------------------
  // DIAS_SEMANA_ES and _get_dia_semana_es
  // ---------------------------------------------------------------------

  /** Python's `date.weekday()` of a day number: 0 is Monday, 6 is Sunday. */
  function Weekday(day: int): (w: int)
    ensures 0 <= w < 7
  {
    (day + 6) % 7
  }

  /** DIAS_SEMANA_ES: weekday index to schedule key. */
  function DiaSemanaEs(w: int): DiaSemana
    requires 0 <= w < 7
  {
    if w == 0 then Lunes
    else if w == 1 then Martes
    else if w == 2 then Miercoles
    else if w == 3 then Jueves
    else if w == 4 then Viernes
    else if w == 5 then Sabado
    else Domingo
  }

  /** The position of a key in DIAS_SEMANA_ES. */
  function DiaIndex(d: DiaSemana): (w: int)
    ensures 0 <= w < 7 && DiaSemanaEs(w) == d
  {
    match d
    case Lunes => 0
    case Martes => 1
    case Miercoles => 2
    case Jueves => 3
    case Viernes => 4
    case Sabado => 5
    case Domingo => 6
  }

  /** The weekday map is total on 0..6 and a bijection onto the seven keys. */
  lemma DiaSemanaEsBijective(w: int)
    requires 0 <= w < 7
    ensures DiaIndex(DiaSemanaEs(w)) == w
  {
  }

  /** The schedule key of a day number. */
  function DayKey(day: int): DiaSemana
  {
    DiaSemanaEs(Weekday(day))
  }

  /** Any seven consecutive days meet every schedule key. */
  lemma {:induction false} WeekCovered(start: int, d: DiaSemana)
    ensures exists day :: start <= day < start + 7 && DayKey(day) == d
  {
    var i := (DiaIndex(d) - Weekday(start)) % 7;
    assert Weekday(start + i) == DiaIndex(d) by {
      assert (start + i + 6) % 7 == ((start + 6) % 7 + i) % 7;
    }
    assert DayKey(start + i) == d;
  }

  // ---------------------------------------------------------------------
  // Reference definition of _encontrar_proximo_horario
  // ---------------------------------------------------------------------

  /** Schedule rows keyed on (office, weekday): at most one per pair. */
  type Schedules = map<(int, DiaSemana), Hours>

  /** Times of day within one day, and at least one slot length of closing time. */
  predicate HoursOk(h: Hours)
  {
    0 <= h.open < MinutesPerDay && SlotMinutes <= h.close < MinutesPerDay
  }

  /** Number of tickets of any status for `office` on `date` (the daily count query). */
  function CountOnDate(tickets: seq<Ticket>, office: int, date: int): (n: nat)
    ensures n <= |tickets|
    ensures n == 0 <==> forall i :: 0 <= i < |tickets| ==> !(tickets[i].office == office && tickets[i].date == date)
  {
    if tickets == [] then 0
    else
      var rest := CountOnDate(tickets[1..], office, date);
      assert forall i :: 1 <= i < |tickets| ==> tickets[i] == tickets[1..][i - 1];
      (if tickets[0].office == office && tickets[0].date == date then 1 else 0) + rest
  }

  /** The last bookable start: a slot must end by closing time. */
  function LastStart(h: Hours): int
  {
    h.close - SlotMinutes
  }

  /**
   * Where a search starts: the clock's own day (`ahora.date()`) and the
   * rounded clock (`inicio_busqueda`).
   */
  datatype Origin = Origin(today: int, from: Moment)

  function OriginOf(now: Instant): Origin
    requires ValidInstant(now)
  {
    Origin(now.day, RoundUpTime(now))
  }

  /**
   * The first candidate start on `date`: on the clock's own day the later of
   * the rounded clock and the opening time, on every other day the opening time.
   */
  function FirstStart(h: Hours, date: int, o: Origin): int
  {
    if date == o.today then Max(o.from.minute, h.open) else h.open
  }

  /** `t` is one of the steps the finder visits on `date`. */
  predicate InWindow(h: Hours, date: int, o: Origin, t: int)
  {
    FirstStart(h, date, o) <= t <= LastStart(h) && (t - FirstStart(h, date, o)) % SlotMinutes == 0
  }

  /** The inner walk: the first unoccupied step from `t` up to `last`. */
  function ScanSlots(tickets: seq<Ticket>, office: int, date: int, t: int, last: int): Option<int>
    decreases last - t
  {
    if t > last then None
    else if !Occupied(tickets, office, date, t) then Some(t)
    else ScanSlots(tickets, office, date, t + SlotMinutes, last)
  }

  /** One iteration of the day loop: the free start it finds on `date`, if any. */
  function ScanDay(schedules: Schedules, tickets: seq<Ticket>, office: int, date: int, o: Origin): Option<int>
  {
    var key := (office, DayKey(date));
    if key !in schedules then None
    else
      var h := schedules[key];
      if CountOnDate(tickets, office, date) >= h.maxPerDay then None
      else if FirstStart(h, date, o) > LastStart(h) then None
      else ScanSlots(tickets, office, date, FirstStart(h, date, o), LastStart(h))
  }

  /** The day loop from its `i`-th iteration on. */
  function ScanDays(schedules: Schedules, tickets: seq<Ticket>, office: int, o: Origin, i: nat): Option<Moment>
    decreases HorizonDays - i
  {
    if i >= HorizonDays then None
    else
      var date := o.from.day + i;
      match ScanDay(schedules, tickets, office, date, o)
      case Some(t) => Some(Moment(date, t))
      case None => ScanDays(schedules, tickets, office, o, i + 1)
  }

  /** The slot `_encontrar_proximo_horario` returns for `office` at clock reading `now`. */
  function NextSlot(schedules: Schedules, tickets: seq<Ticket>, office: int, now: Instant): Option<Moment>
    requires ValidInstant(now)
  {
    ScanDays(schedules, tickets, office, OriginOf(now), 0)
  }

  // ---------------------------------------------------------------------
  // What the returned slot is
  // ---------------------------------------------------------------------

  /** Every step of the day's window is taken. */
  ghost predicate WindowFull(h: Hours, tickets: seq<Ticket>, office: int, date: int, o: Origin)
  {
    forall t :: InWindow(h, date, o, t) ==> Occupied(tickets, office, date, t)
  }

  /** The finder passes over `date`: closed, at capacity, no room left, or every step taken. */
  ghost predicate DayBlocked(schedules: Schedules, tickets: seq<Ticket>, office: int, date: int, o: Origin)
  {
    var key := (office, DayKey(date));
    key !in schedules
    || CountOnDate(tickets, office, date) >= schedules[key].maxPerDay
    || FirstStart(schedules[key], date, o) > LastStart(schedules[key])
    || WindowFull(schedules[key], tickets, office, date, o)
  }

  /** `t` is the first free step of an open day with capacity left. */
  ghost predicate SlotChosen(schedules: Schedules, tickets: seq<Ticket>, office: int, date: int, o: Origin, t: int)
  {
    var key := (office, DayKey(date));
    && key in schedules
    && CountOnDate(tickets, office, date) < schedules[key].maxPerDay
    && InWindow(schedules[key], date, o, t)
    && !Occupied(tickets, office, date, t)
    && forall u :: InWindow(schedules[key], date, o, u) && u < t ==> Occupied(tickets, office, date, u)
  }

  /**
   * Declarative statement of the finder's answer: either every scanned day is
   * blocked, or the slot lies on a scanned day after only blocked days and is
   * that day's first free step.
   */
  ghost predicate IsNextSlot(schedules: Schedules, tickets: seq<Ticket>, office: int, o: Origin, r: Option<Moment>)
  {
    var d0 := o.from.day;
    match r
    case None =>
      forall d :: d0 <= d < d0 + HorizonDays ==> DayBlocked(schedules, tickets, office, d, o)
    case Some(m) =>
      && d0 <= m.day < d0 + HorizonDays
      && (forall d :: d0 <= d < m.day ==> DayBlocked(schedules, tickets, office, d, o))
      && SlotChosen(schedules, tickets, office, m.day, o, m.minute)
  }

  /** The inner walk returns the first unoccupied step, or none when all steps are taken. */
  lemma {:induction false} ScanSlotsFirstFree(tickets: seq<Ticket>, office: int, date: int, t: int, last: int)
    ensures match ScanSlots(tickets, office, date, t, last)
      case Some(s) =>
        && t <= s <= last && (s - t) % SlotMinutes == 0
        && !Occupied(tickets, office, date, s)
        && forall u :: t <= u < s && (u - t) % SlotMinutes == 0 ==> Occupied(tickets, office, date, u)
      case None =>
        forall u :: t <= u <= last && (u - t) % SlotMinutes == 0 ==> Occupied(tickets, office, date, u)
    decreases last - t
  {
    if t <= last && Occupied(tickets, office, date, t) {
      var t' := t + SlotMinutes;
      ScanSlotsFirstFree(tickets, office, date, t', last);
    }
  }

  /** One day's scan finds nothing exactly when the day is blocked, and otherwise the chosen slot. */
  lemma ScanDayMeaning(schedules: Schedules, tickets: seq<Ticket>, office: int, date: int, o: Origin)
    ensures ScanDay(schedules, tickets, office, date, o).None? <==> DayBlocked(schedules, tickets, office, date, o)
    ensures ScanDay(schedules, tickets, office, date, o).Some? ==>
      SlotChosen(schedules, tickets, office, date, o, ScanDay(schedules, tickets, office, date, o).value)
  {
    var key := (office, DayKey(date));
    if key in schedules {
      var h := schedules[key];
      var first := FirstStart(h, date, o);
      ScanSlotsFirstFree(tickets, office, date, first, LastStart(h));
      if first > LastStart(h) {
        assert forall t :: !InWindow(h, date, o, t);
      }
    }
  }

  /** The day loop from iteration `i` on, stated day by day. */
  lemma {:induction false} ScanDaysMeaning(schedules: Schedules, tickets: seq<Ticket>, office: int, o: Origin, i: nat)
    ensures var d0 := o.from.day;
      match ScanDays(schedules, tickets, office, o, i)
      case None =>
        forall d :: d0 + i <= d < d0 + HorizonDays ==> DayBlocked(schedules, tickets, office, d, o)
      case Some(m) =>
        && d0 + i <= m.day < d0 + HorizonDays
        && (forall d :: d0 + i <= d < m.day ==> DayBlocked(schedules, tickets, office, d, o))
        && SlotChosen(schedules, tickets, office, m.day, o, m.minute)
    decreases HorizonDays - i
  {
    if i < HorizonDays {
      var date := o.from.day + i;
      ScanDayMeaning(schedules, tickets, office, date, o);
      if ScanDay(schedules, tickets, office, date, o).None? {
        ScanDaysMeaning(schedules, tickets, office, o, i + 1);
        BlockedDayExtends(schedules, tickets, office, o, i, ScanDays(schedules, tickets, office, o, i + 1));
      }
    }
  }

  /** A blocked day in front of the days the rest of the scan passed over is passed over too. */
  lemma BlockedDayExtends(schedules: Schedules, tickets: seq<Ticket>, office: int, o: Origin, i: nat, r: Option<Moment>)
    requires DayBlocked(schedules, tickets, office, o.from.day + i, o)
    requires var d0 := o.from.day;
      match r
      case None =>
        forall d :: d0 + i + 1 <= d < d0 + HorizonDays ==> DayBlocked(schedules, tickets, office, d, o)
      case Some(m) =>
        && d0 + i + 1 <= m.day
        && (forall d :: d0 + i + 1 <= d < m.day ==> DayBlocked(schedules, tickets, office, d, o))
    ensures var d0 := o.from.day;
      match r
      case None =>
        forall d :: d0 + i <= d < d0 + HorizonDays ==> DayBlocked(schedules, tickets, office, d, o)
      case Some(m) =>
        && d0 + i <= m.day
        && (forall d :: d0 + i <= d < m.day ==> DayBlocked(schedules, tickets, office, d, o))
  {
  }

  /** The reference finder meets the declarative statement. */
  lemma NextSlotMeaning(schedules: Schedules, tickets: seq<Ticket>, office: int, now: Instant)
    requires ValidInstant(now)
    ensures IsNextSlot(schedules, tickets, office, OriginOf(now), NextSlot(schedules, tickets, office, now))
  {
    ScanDaysMeaning(schedules, tickets, office, OriginOf(now), 0);
  }

  /** The returned slot is not taken by any ticket. */
  lemma NextSlotIsFree(schedules: Schedules, tickets: seq<Ticket>, office: int, now: Instant)
    requires ValidInstant(now)
    ensures var r := NextSlot(schedules, tickets, office, now);
      r.Some? ==> !Occupied(tickets, office, r.value.day, r.value.minute)
  {
    NextSlotMeaning(schedules, tickets, office, now);
  }

  /** A day holding a chosen slot is not blocked. */
  lemma ChosenDayNotBlocked(schedules: Schedules, tickets: seq<Ticket>, office: int, date: int, o: Origin, t: int)
    requires SlotChosen(schedules, tickets, office, date, o, t)
    ensures !DayBlocked(schedules, tickets, office, date, o)
  {
    var h := schedules[(office, DayKey(date))];
    assert InWindow(h, date, o, t) && !Occupied(tickets, office, date, t);
  }

  /** The declarative statement pins the answer down: at most one result satisfies it. */
  lemma IsNextSlotUnique(schedules: Schedules, tickets: seq<Ticket>, office: int, o: Origin, r1: Option<Moment>, r2: Option<Moment>)
    requires IsNextSlot(schedules, tickets, office, o, r1)
    requires IsNextSlot(schedules, tickets, office, o, r2)
    ensures r1 == r2
  {
    match (r1, r2)
    case (None, None) =>
    case (Some(m), None) =>
      ChosenDayNotBlocked(schedules, tickets, office, m.day, o, m.minute);
    case (None, Some(m)) =>
      ChosenDayNotBlocked(schedules, tickets, office, m.day, o, m.minute);
    case (Some(m1), Some(m2)) =>
      ChosenDayNotBlocked(schedules, tickets, office, m1.day, o, m1.minute);
      ChosenDayNotBlocked(schedules, tickets, office, m2.day, o, m2.minute);
      assert m1.day == m2.day;
  }

  /** The reference finder is the one answer the declarative statement allows. */
  lemma NextSlotCharacterized(schedules: Schedules, tickets: seq<Ticket>, office: int, now: Instant, r: Option<Moment>)
    requires ValidInstant(now)
    ensures NextSlot(schedules, tickets, office, now) == r <==> IsNextSlot(schedules, tickets, office, OriginOf(now), r)
  {
    NextSlotMeaning(schedules, tickets, office, now);
    if IsNextSlot(schedules, tickets, office, OriginOf(now), r) {
      IsNextSlotUnique(schedules, tickets, office, OriginOf(now), r, NextSlot(schedules, tickets, office, now));
    }
  }

  /**
   * The returned slot in the schedule's own terms: on a day within the horizon,
   * on that day's schedule row, below its cap, between the first start and the
   * last bookable start, a whole number of slots after the first start, and free.
   */
  lemma NextSlotWithinHours(schedules: Schedules, tickets: seq<Ticket>, office: int, now: Instant)
    requires ValidInstant(now)
    requires NextSlot(schedules, tickets, office, now).Some?
    ensures var m := NextSlot(schedules, tickets, office, now).value;
      var d0 := RoundUpTime(now).day;
      var key := (office, DayKey(m.day));
      && d0 <= m.day <= d0 + HorizonDays - 1
      && key in schedules
      && CountOnDate(tickets, office, m.day) < schedules[key].maxPerDay
      && schedules[key].open <= m.minute <= schedules[key].close - SlotMinutes
      && (m.day == now.day ==> RoundUpTime(now).minute <= m.minute)
      && (exists k: nat :: m.minute == FirstStart(schedules[key], m.day, OriginOf(now)) + SlotMinutes * k)
      && !Occupied(tickets, office, m.day, m.minute)
  {
    NextSlotMeaning(schedules, tickets, office, now);
    var m := NextSlot(schedules, tickets, office, now).value;
    var h := schedules[(office, DayKey(m.day))];
    var first := FirstStart(h, m.day, OriginOf(now));
    var k: nat := (m.minute - first) / SlotMinutes;
    assert m.minute == first + SlotMinutes * k;
  }

  /** An office without any schedule row on a scanned day gets no slot. */
  lemma NoRowInHorizonNoSlot(schedules: Schedules, tickets: seq<Ticket>, office: int, now: Instant)
    requires ValidInstant(now)
    requires forall d :: RoundUpTime(now).day <= d < RoundUpTime(now).day + HorizonDays ==> (office, DayKey(d)) !in schedules
    ensures NextSlot(schedules, tickets, office, now) == None
  {
    NextSlotMeaning(schedules, tickets, office, now);
  }

  /** Since the horizon spans more than a week, no row on a scanned day means no row on any weekday. */
  lemma HorizonMeetsEveryWeekday(schedules: Schedules, office: int, d0: int)
    ensures (forall d :: d0 <= d < d0 + HorizonDays ==> (office, DayKey(d)) !in schedules)
        <==> (forall w: DiaSemana :: (office, w) !in schedules)
  {
    if forall d :: d0 <= d < d0 + HorizonDays ==> (office, DayKey(d)) !in schedules {
      forall w: DiaSemana ensures (office, w) !in schedules {
        WeekCovered(d0, w);
      }
    }
  }

  /** Capacity rule: a day whose ticket count has reached its cap is never chosen. */
  lemma FullDayNeverChosen(schedules: Schedules, tickets: seq<Ticket>, office: int, now: Instant, date: int)
    requires ValidInstant(now)
    requires (office, DayKey(date)) in schedules
    requires CountOnDate(tickets, office, date) >= schedules[(office, DayKey(date))].maxPerDay
    ensures NextSlot(schedules, tickets, office, now) != None ==> NextSlot(schedules, tickets, office, now).value.day != date
  {
    NextSlotMeaning(schedules, tickets, office, now);
  }
}
