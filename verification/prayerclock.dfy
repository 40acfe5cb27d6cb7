/** The dashboard's clock rules: reading `"HH:MM"` as a minute of the day,
    picking the current and next prayer, the upcoming/active status of a
    schedule, and 12-hour display. "Now" is a parameter: the minute of the
    day the dashboard computes as `getHours() * 60 + getMinutes()`. */
module PrayerClock {
  import opened Js
  import opened Records

  datatype Prayer = Prayer(name: string, key: string)

  /** The five daily prayers in the order the dashboard scans them. */
  const Prayers: seq<Prayer> := [
    Prayer("Fajr", "fajr"), Prayer("Dhuhr", "dhuhr"), Prayer("Asr", "asr"),
    Prayer("Maghrib", "maghrib"), Prayer("Isha", "isha")]

  /** A prayer with its time as the schedule gives it (`None` when the
      schedule has no such key, i.e. `undefined`). */
  datatype Slot = Slot(prayer: Prayer, time: Option<string>)

  function SlotOf(times: Schedule, i: int): Slot
    requires 0 <= i < 5
  {
    var p := Prayers[i];
    Slot(p, if p.key in times then Some(times[p.key]) else None)
  }

  // ---------------------------------------------------------------------------
  // "HH:MM"

  /** One element of `time.split(':').map(Number)` taken by destructuring:
      missing (`undefined`), `NaN`, or a number. */
  datatype Field = Undefined | NaN | Num(n: nat)

  function FieldAt(parts: seq<string>, i: nat): Field {
    if i >= |parts| then Undefined
    else match NumberOf(parts[i])
      case Some(v) => Num(v)
      case None => NaN
  }

  /** `hours * 60 + minutes`; `None` stands for `NaN`. */
  function ClockMinutes(t: string): (r: Option<nat>)
  {
    var parts := Split(t, ':');
    match (FieldAt(parts, 0), FieldAt(parts, 1))
    case (Num(h), Num(m)) => Some(h * 60 + m)
    case _ => None
  }

  lemma SplitClock(hh: string, mm: string)
    requires AllDigits(hh) && AllDigits(mm)
    ensures Split(hh + ":" + mm, ':') == [hh, mm]
  {
    DigitsHaveNo(hh, ':');
    DigitsHaveNo(mm, ':');
    assert hh + ":" + mm == hh + [':'] + mm;
    SplitTwo(hh, ':', mm);
  }

  /** `"HH:MM"` with digit fields reads as `HH * 60 + MM`. */
  lemma ClockMinutesOfDigits(hh: string, mm: string, h: nat, m: nat)
    requires NumberOf(hh) == Some(h) && NumberOf(mm) == Some(m)
    ensures ClockMinutes(hh + ":" + mm) == Some(h * 60 + m)
  {
    SplitClock(hh, mm);
    var parts := Split(hh + ":" + mm, ':');
    assert FieldAt(parts, 0) == Num(h);
    assert FieldAt(parts, 1) == Num(m);
  }

  /** The zero-padded two-digit text of a number, as time inputs give it. */
  function TwoDigits(n: nat): string {
    PadStart2(NatToString(n))
  }

  lemma TwoDigitsValue(n: nat)
    ensures NumberOf(TwoDigits(n)) == Some(n)
  {
    NatToStringRoundTrip(n);
    PadStart2Value(NatToString(n));
  }

  /** Reading the `"HH:MM"` text of `h` and `m` gives `h * 60 + m`. */
  lemma ClockTextMinutes(h: nat, m: nat)
    ensures ClockMinutes(TwoDigits(h) + ":" + TwoDigits(m)) == Some(h * 60 + m)
  {
    TwoDigitsValue(h);
    TwoDigitsValue(m);
    ClockMinutesOfDigits(TwoDigits(h), TwoDigits(m), h, m);
  }

  /** `now < prayerTime`, which is false when the time reads as `NaN`. */
  predicate Later(t: string, now: int) {
    var v := ClockMinutes(t);
    v.Some? && now < v.value
  }

  // ---------------------------------------------------------------------------
  // getCurrentPrayer

  datatype CurrentNext = CurrentNext(current: Slot, next: Slot)

  /** Prayer `j` is present and not after `now`, so the scan moves past it. */
  ghost predicate Passed(times: Schedule, now: int, j: int)
    requires 0 <= j < 5
  {
    Prayers[j].key in times && !Later(times[Prayers[j].key], now)
  }

  ghost predicate PassedBefore(times: Schedule, now: int, i: int)
    requires 0 <= i <= 5
  {
    forall j :: 0 <= j < i ==> Passed(times, now, j)
  }

  /** The scan returns at prayer `k`: the first one strictly after `now`. */
  ghost predicate ReturnsAt(times: Schedule, now: int, k: int)
    requires 0 <= k < 5
  {
    PassedBefore(times, now, k) && Prayers[k].key in times && Later(times[Prayers[k].key], now)
  }

  /** The scan reaches prayer `k` and the schedule lacks it: `undefined.split`
      throws. */
  ghost predicate ThrowsAt(times: Schedule, now: int, k: int)
    requires 0 <= k < 5
  {
    PassedBefore(times, now, k) && Prayers[k].key !in times
  }

  function ScanCurrent(times: Schedule, now: int, i: int): (r: Result<CurrentNext>)
    requires 0 <= i <= 5 && PassedBefore(times, now, i)
    ensures forall k :: i <= k < 5 && ReturnsAt(times, now, k) ==>
      r == Ok(CurrentNext(SlotOf(times, k), SlotOf(times, (k + 1) % 5)))
    ensures PassedBefore(times, now, 5) ==> r == Ok(CurrentNext(SlotOf(times, 0), SlotOf(times, 1)))
    ensures r.Thrown? <==> exists k :: i <= k < 5 && ThrowsAt(times, now, k)
    decreases 5 - i
  {
    if i == 5 then Ok(CurrentNext(SlotOf(times, 0), SlotOf(times, 1)))
    else if Prayers[i].key !in times then
      assert ThrowsAt(times, now, i);
      assert !Passed(times, now, i);
      Thrown(TypeError)
    else if Later(times[Prayers[i].key], now) then
      assert ReturnsAt(times, now, i);
      assert !Passed(times, now, i);
      Ok(CurrentNext(SlotOf(times, i), SlotOf(times, (i + 1) % 5)))
    else ScanCurrent(times, now, i + 1)
  }

  /** `getCurrentPrayer(times)` at minute `now`: the first of Fajr, Dhuhr,
      Asr, Maghrib, Isha strictly after `now`, with the one after it (Isha
      wraps to Fajr); Fajr and Dhuhr once every prayer has passed. */
  function CurrentPrayer(times: Schedule, now: int): (r: Result<CurrentNext>)
    ensures forall k :: 0 <= k < 5 && ReturnsAt(times, now, k) ==>
      r == Ok(CurrentNext(SlotOf(times, k), SlotOf(times, (k + 1) % 5)))
    ensures PassedBefore(times, now, 5) ==> r == Ok(CurrentNext(SlotOf(times, 0), SlotOf(times, 1)))
    ensures r.Thrown? <==> exists k :: 0 <= k < 5 && ThrowsAt(times, now, k)
  {
    ScanCurrent(times, now, 0)
  }

  /** Minute values of a schedule holding all five prayers in readable form. */
  ghost predicate Readable(times: Schedule) {
    forall k :: 0 <= k < 5 ==> Prayers[k].key in times && ClockMinutes(times[Prayers[k].key]).Some?
  }

  function MinuteOf(times: Schedule, k: int): nat
    requires Readable(times) && 0 <= k < 5
  {
    ClockMinutes(times[Prayers[k].key]).value
  }

  /** The schedule lists the prayers in increasing time order. */
  ghost predicate Increasing(times: Schedule)
    requires Readable(times)
  {
    forall j, k :: 0 <= j < k < 5 ==> MinuteOf(times, j) < MinuteOf(times, k)
  }

  /** For an ordered, readable schedule the current prayer is the one whose
      time interval `[previous prayer, this prayer)` holds `now`, and before
      Fajr or after Isha it is Fajr. */
  lemma CurrentPrayerInterval(times: Schedule, now: int, k: int)
    requires Readable(times) && Increasing(times) && 0 <= k < 5
    requires now < MinuteOf(times, k)
    requires k == 0 || MinuteOf(times, k - 1) <= now
    ensures CurrentPrayer(times, now) == Ok(CurrentNext(SlotOf(times, k), SlotOf(times, (k + 1) % 5)))
  {
    forall j | 0 <= j < k ensures Passed(times, now, j) {
      assert MinuteOf(times, j) <= MinuteOf(times, k - 1);
    }
    assert ReturnsAt(times, now, k);
  }

  lemma CurrentPrayerAfterIsha(times: Schedule, now: int)
    requires Readable(times) && Increasing(times)
    requires MinuteOf(times, 4) <= now
    ensures CurrentPrayer(times, now) == Ok(CurrentNext(SlotOf(times, 0), SlotOf(times, 1)))
  {
    forall j | 0 <= j < 5 ensures Passed(times, now, j) {
      assert MinuteOf(times, j) <= MinuteOf(times, 4);
    }
  }

  // ---------------------------------------------------------------------------
  // getCurrentPrayerStatus

  datatype Kind = Soon(left: int) | Now

  function Abs(x: int): nat {
    if x < 0 then -x else x
  }

  /** The test one prayer gets: upcoming when `0 < diff <= 30`, else active
      when `Math.abs(diff) <= 15`, where `diff` is the prayer minute minus
      `now` (`NaN` passes neither test). */
  function Classify(t: string, now: int): (r: Option<Kind>)
    ensures (r.Some? && r.value.Soon?) <==> (ClockMinutes(t).Some? && 0 < ClockMinutes(t).value - now <= 30)
    ensures r.Some? && r.value.Soon? ==> r.value.left == ClockMinutes(t).value - now
    ensures r == Some(Now) <==> (ClockMinutes(t).Some? && -15 <= ClockMinutes(t).value - now <= 0)
  {
    match ClockMinutes(t)
    case None => None
    case Some(v) =>
      var diff := v - now;
      if diff > 0 && diff <= 30 then Some(Soon(diff))
      else if Abs(diff) <= 15 then Some(Now)
      else None
  }

  datatype PrayerStatus =
    | Upcoming(prayer: Prayer, time: string, timeLeft: int)
    | Active(prayer: Prayer, time: string)

  function Report(p: Prayer, t: string, kind: Kind): PrayerStatus {
    match kind
    case Soon(left) => Upcoming(p, t, left)
    case Now => Active(p, t)
  }

  /** Prayer `j` is present and neither upcoming nor active. */
  ghost predicate Quiet(times: Schedule, now: int, j: int)
    requires 0 <= j < 5
  {
    Prayers[j].key in times && Classify(times[Prayers[j].key], now).None?
  }

  ghost predicate QuietBefore(times: Schedule, now: int, i: int)
    requires 0 <= i <= 5
  {
    forall j :: 0 <= j < i ==> Quiet(times, now, j)
  }

  /** The first prayer that is upcoming or active is prayer `k`. */
  ghost predicate HitAt(times: Schedule, now: int, k: int)
    requires 0 <= k < 5
  {
    QuietBefore(times, now, k) && Prayers[k].key in times && Classify(times[Prayers[k].key], now).Some?
  }

  ghost predicate StatusThrowsAt(times: Schedule, now: int, k: int)
    requires 0 <= k < 5
  {
    QuietBefore(times, now, k) && Prayers[k].key !in times
  }

  /** What the scan reports about a schedule. */
  ghost predicate StatusBounds(r: Result<Option<PrayerStatus>>, now: int) {
    && (r.Ok? && r.value.Some? && r.value.value.Upcoming? ==>
          1 <= r.value.value.timeLeft <= 30
          && ClockMinutes(r.value.value.time) == Some(now + r.value.value.timeLeft))
    && (r.Ok? && r.value.Some? && r.value.value.Active? ==>
          ClockMinutes(r.value.value.time).Some?
          && now - 15 <= ClockMinutes(r.value.value.time).value <= now)
  }

  function ScanStatus(times: Schedule, now: int, i: int): (r: Result<Option<PrayerStatus>>)
    requires 0 <= i <= 5 && QuietBefore(times, now, i)
    ensures forall k :: i <= k < 5 && HitAt(times, now, k) ==>
      r == Ok(Some(Report(Prayers[k], times[Prayers[k].key], Classify(times[Prayers[k].key], now).value)))
    ensures QuietBefore(times, now, 5) ==> r == Ok(None)
    ensures r.Thrown? <==> exists k :: i <= k < 5 && StatusThrowsAt(times, now, k)
    ensures StatusBounds(r, now)
    decreases 5 - i
  {
    if i == 5 then Ok(None)
    else
      var p := Prayers[i];
      if p.key !in times then
        assert StatusThrowsAt(times, now, i);
        assert !Quiet(times, now, i);
        Thrown(TypeError)
      else match Classify(times[p.key], now)
        case Some(kind) =>
          assert HitAt(times, now, i);
          assert !Quiet(times, now, i);
          Ok(Some(Report(p, times[p.key], kind)))
        case None => ScanStatus(times, now, i + 1)
  }

  /** `getCurrentPrayerStatus(times)` at minute `now`: the first prayer, in
      order, that is upcoming (within the next 30 minutes, with the minutes
      left) or active (at most 15 minutes ago), else `null`. */
  function CurrentPrayerStatus(times: Schedule, now: int): (r: Result<Option<PrayerStatus>>)
    ensures forall k :: 0 <= k < 5 && HitAt(times, now, k) ==>
      r == Ok(Some(Report(Prayers[k], times[Prayers[k].key], Classify(times[Prayers[k].key], now).value)))
    ensures QuietBefore(times, now, 5) ==> r == Ok(None)
    ensures r.Thrown? <==> exists k :: 0 <= k < 5 && StatusThrowsAt(times, now, k)
    ensures StatusBounds(r, now)
  {
    ScanStatus(times, now, 0)
  }

  // ---------------------------------------------------------------------------
  // formatTime12Hour

  /** `hours % 12 || 12`. */
  function Hour12(h: nat): (r: nat)
    ensures 1 <= r <= 12
    ensures r % 12 == h % 12
  {
    if h % 12 != 0 then h % 12 else 12
  }

  function Period(h: nat): string {
    if h >= 12 then "PM" else "AM"
  }

  /** `formatTime12Hour(time24)`. A time without a colon has `undefined`
      minutes and throws; a field that is `NaN` prints hour `12`, period `AM`
      and minutes `NaN`, as the JavaScript does. */
  function FormatTime12(t: string): (r: Result<string>)
    ensures r.Thrown? <==> ':' !in t
  {
    var parts := Split(t, ':');
    var h := FieldAt(parts, 0);
    var m := FieldAt(parts, 1);
    if m.Undefined? then Thrown(TypeError)
    else
      var period := if h.Num? then Period(h.n) else "AM";
      var hour := if h.Num? then NatToString(Hour12(h.n)) else "12";
      var minutes := if m.Num? then PadStart2(NatToString(m.n)) else "NaN";
      Ok(hour + ":" + minutes + " " + period)
  }

  /** On a readable time the output is the 12-hour hour (1..12), a colon,
      the minutes padded to two digits, and PM exactly from hour 12 on. */
  lemma FormatTime12Shape(hh: string, mm: string, h: nat, m: nat)
    requires NumberOf(hh) == Some(h) && NumberOf(mm) == Some(m)
    ensures FormatTime12(hh + ":" + mm) == Ok(Text12(h, m))
  {
    SplitClock(hh, mm);
    var parts := Split(hh + ":" + mm, ':');
    assert FieldAt(parts, 0) == Num(h);
    assert FieldAt(parts, 1) == Num(m);
  }

  /** The 12-hour text of hour `h` and minute `m`. */
  function Text12(h: nat, m: nat): string {
    NatToString(Hour12(h)) + ":" + TwoDigits(m) + " " + Period(h)
  }

  /** Midnight prints as 12 AM and noon as 12 PM; the period is PM exactly
      from hour 12 on. */
  lemma Text12Edges(h: nat, m: nat)
    ensures Text12(0, m) == "12:" + TwoDigits(m) + " AM"
    ensures Text12(12, m) == "12:" + TwoDigits(m) + " PM"
    ensures Period(h) == "PM" <==> h >= 12
  {
    assert Hour12(0) == 12 && Hour12(12) == 12;
    assert NatToString(1) == "1" && NatToString(2) == "2";
    assert NatToString(12) == NatToString(1) + [DigitChar(2)] == "12";
  }

  /** Reading a 12-hour text `"h:mm AM"` / `"h:mm PM"` back as a minute of
      the day, with 12 AM as hour 0 and 12 PM as hour 12. */
  function Read12(s: string): Option<nat> {
    var parts := Split(s, ':');
    if |parts| != 2 then None
    else
      var rest := Split(parts[1], ' ');
      if |rest| != 2 then None
      else match (NumberOf(parts[0]), NumberOf(rest[0]))
        case (Some(h12), Some(m)) =>
          if 1 <= h12 <= 12 && (rest[1] == "AM" || rest[1] == "PM")
          then Some((h12 % 12 + (if rest[1] == "PM" then 12 else 0)) * 60 + m)
          else None
        case _ => None
  }

  lemma Split12(hour: string, minutes: string, period: string)
    requires AllDigits(hour) && AllDigits(minutes) && (period == "AM" || period == "PM")
    ensures Split(hour + ":" + minutes + " " + period, ':') == [hour, minutes + " " + period]
    ensures Split(minutes + " " + period, ' ') == [minutes, period]
  {
    DigitsHaveNo(hour, ':');
    DigitsHaveNo(minutes, ':');
    DigitsHaveNo(minutes, ' ');
    var tail := minutes + " " + period;
    assert tail == minutes + [' '] + period;
    assert hour + ":" + minutes + " " + period == hour + [':'] + tail;
    SplitTwo(hour, ':', tail);
    SplitTwo(minutes, ' ', period);
  }

  /** Reading a well-formed 12-hour text. */
  lemma Read12Fields(hour: string, minutes: string, period: string, hv: nat, mv: nat)
    requires NumberOf(hour) == Some(hv) && NumberOf(minutes) == Some(mv) && 1 <= hv <= 12
    requires period == "AM" || period == "PM"
    ensures Read12(hour + ":" + minutes + " " + period) == Some((hv % 12 + (if period == "PM" then 12 else 0)) * 60 + mv)
  {
    Split12(hour, minutes, period);
  }

  /** The 12-hour hour and the period give back the hour of the day. */
  lemma Hour12Back(h: nat)
    requires h < 24
    ensures Hour12(h) % 12 + (if Period(h) == "PM" then 12 else 0) == h
  {
  }

  /** The 12-hour text of a time of day reads back as the same minute. */
  lemma Text12RoundTrip(h: nat, m: nat)
    requires h < 24
    ensures Read12(Text12(h, m)) == Some(h * 60 + m)
  {
    NatToStringRoundTrip(Hour12(h));
    TwoDigitsValue(m);
    Read12Fields(NatToString(Hour12(h)), TwoDigits(m), Period(h), Hour12(h), m);
    Hour12Back(h);
  }

  /** `formatTime12Hour` loses nothing on a time of day: reading its output
      as a 12-hour time gives back the minute the 24-hour text stands for. */
  lemma FormatTime12RoundTrip(hh: string, mm: string, h: nat, m: nat)
    requires NumberOf(hh) == Some(h) && NumberOf(mm) == Some(m) && h < 24
    ensures FormatTime12(hh + ":" + mm).Ok?
    ensures Read12(FormatTime12(hh + ":" + mm).value) == ClockMinutes(hh + ":" + mm)
  {
    FormatTime12Shape(hh, mm, h, m);
    ClockMinutesOfDigits(hh, mm, h, m);
    Text12RoundTrip(h, m);
  }
}
