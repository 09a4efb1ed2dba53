/** The timestamp record that the organizer normalizes, steps and overwrites in place. */
module FolderTimestamps {
  import opened Calendar

  const SECONDS_BETWEEN_FOLDERS := 60

  function Nearest(lo: int, x: int, hi: int): (r: int)
    requires lo <= hi
    ensures lo <= r <= hi
    ensures lo <= x <= hi ==> r == x
  {
    if x < lo then lo else if x > hi then hi else x
  }

  /** Every field moved to its nearest legal value; a reserved Tuna date is pushed back one second. */
  function Normalized(s: Stamp, reserveTuna: bool): Stamp {
    var year := Nearest(MIN_YEAR, s.year, MAX_YEAR);
    var month := Nearest(1, s.month, 12);
    var day := Nearest(1, s.day, DaysInMonth(year, month));
    var near := Stamp(year, month, day, Nearest(0, s.hour, 23), Nearest(0, s.minute, 59), Nearest(0, s.second, 59));
    if reserveTuna && near == TUNA then SEQUENTIAL_TOP else near
  }

  /** Normalizing always yields a storable date, leaves storable dates alone, and needs doing only once. */
  lemma NormalizedIsProjection(s: Stamp, reserveTuna: bool)
    ensures var n := Normalized(s, reserveTuna);
      && InRange(n) && (reserveTuna ==> n != TUNA)
      && (InRange(s) && !(reserveTuna && s == TUNA) ==> n == s)
      && Normalized(n, reserveTuna) == n
  {
    NamedSeconds();
  }

  function LastSecond(reserveTuna: bool): int {
    NamedSeconds();
    if reserveTuna then Seconds(SEQUENTIAL_TOP) else Seconds(TUNA)
  }

  /** One step of the clock: a second later or earlier in calendar time, stopping at the ends of the range. */
  ghost predicate Stepped(before: Stamp, delta: int, reserveTuna: bool, after: Stamp) {
    NormalizedIsProjection(before, reserveTuna);
    SteppedFrom(Normalized(before, reserveTuna), delta, reserveTuna, after)
  }

  ghost predicate SteppedFrom(start: Stamp, delta: int, reserveTuna: bool, after: Stamp)
    requires InRange(start)
  {
    && InRange(after)
    && (reserveTuna ==> after != TUNA)
    && Seconds(after) == if delta > 0
                         then if Seconds(start) < LastSecond(reserveTuna) then Seconds(start) + 1 else LastSecond(reserveTuna)
                         else if Seconds(start) > 0 then Seconds(start) - 1 else 0
  }

  /** A storable stamp never lies beyond the last second that may be handed out. */
  lemma WithinLastSecond(s: Stamp, reserveTuna: bool)
    requires InRange(s) && (reserveTuna ==> s != TUNA)
    ensures 0 <= Seconds(s) <= LastSecond(reserveTuna)
    ensures Seconds(s) == LastSecond(reserveTuna) <==> s == if reserveTuna then SEQUENTIAL_TOP else TUNA
  {
    NamedSeconds();
    FirstSecond(s);
    TunaIsLast(s);
    SecondsOrder(s, SEQUENTIAL_TOP);
  }

  lemma BelowTuna(s: Stamp, reserveTuna: bool)
    requires InRange(s) && Seconds(s) <= LastSecond(reserveTuna)
    ensures reserveTuna ==> s != TUNA
  {
    NamedSeconds();
  }

  /** Between the two ends, a step one way is undone by a step the other way. */
  lemma StepsUndoEachOther(s: Stamp, delta: int, t: Stamp, back: int, u: Stamp, reserveTuna: bool)
    requires InRange(s) && (reserveTuna ==> s != TUNA)
    requires Stepped(s, delta, reserveTuna, t) && Stepped(t, back, reserveTuna, u)
    requires (delta > 0) != (back > 0)
    requires if delta > 0 then Seconds(s) < LastSecond(reserveTuna) else Seconds(s) > 0
    ensures u == s
  {
    NormalizedIsProjection(s, reserveTuna);
    NormalizedIsProjection(t, reserveTuna);
    WithinLastSecond(s, reserveTuna);
    SecondsOrder(s, u);
  }

  /** The step is a function of the stamp: no two results satisfy it. */
  lemma StepIsDetermined(s: Stamp, delta: int, reserveTuna: bool, t: Stamp, u: Stamp)
    requires Stepped(s, delta, reserveTuna, t) && Stepped(s, delta, reserveTuna, u)
    ensures t == u
  {
    SecondsOrder(t, u);
  }

  // ----- carrying into the next field -----

  lemma NextMonth(s: Stamp, t: Stamp)
    requires InRange(s) && InRange(t)
    requires s.day == DaysInMonth(s.year, s.month) && t.day == 1
    requires if s.month < 12 then t.year == s.year && t.month == s.month + 1
             else t.year == s.year + 1 && t.month == 1
    ensures DayNumber(t) == DayNumber(s) + 1
  {
    MonthStep(s.year, s.month);
    if s.month == 12 {
      YearStep(s.year);
    }
  }

  /** The last instant of a day is followed by the first instant of the next. */
  lemma NextDay(s: Stamp, t: Stamp)
    requires InRange(s) && InRange(t) && DayNumber(t) == DayNumber(s) + 1
    requires TimeOfDay(s) == SECONDS_PER_DAY - 1 && TimeOfDay(t) == 0
    ensures Seconds(t) == Seconds(s) + 1
  {
  }

  lemma SasTopIsLate()
    ensures InRange(SAS_TOP) && DayNumber(SAS_TOP) == 766_279 && TimeOfDay(SAS_TOP) == 28_799
  {
    assert DaysBeforeYear(2099) == 766_279 && DaysBeforeMonth(2099, 1) == 0;
  }

  class FolderTimestamp {
    var year: U16
    var month: U8
    var day: U8
    var hour: U8
    var minute: U8
    var second: U8

    function Value(): Stamp
      reads this
    {
      Stamp(year, month, day, hour, minute, second)
    }

    constructor (s: Stamp)
      ensures Value() == s
    {
      year, month, day, hour, minute, second := s.year, s.month, s.day, s.hour, s.minute, s.second;
    }

    method Normalize(reserveTuna: bool)
      modifies this
      ensures Value() == Normalized(old(Value()), reserveTuna)
    {
      NormalizeDate();
      if hour > 23 {
        hour := 23;
      }
      if minute > 59 {
        minute := 59;
      }
      if second > 59 {
        second := 59;
      }
      if reserveTuna && year == 2099 && month == 12 && day == 31 && hour == 23 && minute == 59 && second == 59 {
        second := 58;
      }
    }

    method NormalizeDate()
      modifies this`year, this`month, this`day
      ensures year == Nearest(MIN_YEAR, old(year), MAX_YEAR)
      ensures month == Nearest(1, old(month), 12)
      ensures day == Nearest(1, old(day), DaysInMonth(year, month))
    {
      if year < 1 {
        year := 1;
      } else if year > 2099 {
        year := 2099;
      }
      if month < 1 {
        month := 1;
      } else if month > 12 {
        month := 12;
      }
      if day < 1 {
        day := 1;
      } else if day > DaysInMonth(year, month) {
        day := DaysInMonth(year, month);
      }
    }

    method SetTuna()
      modifies this
      ensures Value() == TUNA
    {
      year, month, day, hour, minute, second := 2099, 12, 31, 23, 59, 59;
    }

    method Step(delta: int, reserveTuna: bool)
      modifies this
      ensures Stepped(old(Value()), delta, reserveTuna, Value())
    {
      NormalizedIsProjection(Value(), reserveTuna);
      Normalize(reserveTuna);
      StepNormalized(delta, reserveTuna);
    }

    method StepNormalized(delta: int, reserveTuna: bool)
      requires InRange(Value()) && (reserveTuna ==> Value() != TUNA)
      modifies this
      ensures SteppedFrom(old(Value()), delta, reserveTuna, Value())
    {
      WithinLastSecond(Value(), reserveTuna);
      FirstSecond(Value());
      if delta > 0 {
        StepForward(reserveTuna);
      } else {
        StepBackward(reserveTuna);
      }
    }

    /** Normalizing a storable stamp again, as the code does after a carry, changes nothing. */
    method Renormalize(reserveTuna: bool)
      requires InRange(Value()) && (reserveTuna ==> Value() != TUNA)
      modifies this
      ensures Value() == old(Value())
    {
      NormalizedIsProjection(Value(), reserveTuna);
      Normalize(reserveTuna);
    }

    method StepForward(reserveTuna: bool)
      requires InRange(Value()) && (reserveTuna ==> Value() != TUNA)
      modifies this
      ensures InRange(Value()) && (reserveTuna ==> Value() != TUNA)
      ensures old(Seconds(Value())) == LastSecond(reserveTuna) ==> Value() == old(Value())
      ensures old(Seconds(Value())) != LastSecond(reserveTuna) ==> Seconds(Value()) == old(Seconds(Value())) + 1
    {
      WithinLastSecond(Value(), reserveTuna);
      if year == 2099 && month == 12 && day == 31 && hour == 23 && minute == 59 &&
         ((reserveTuna && second >= 58) || (!reserveTuna && second >= 59)) {
        return;
      }
      var midnight := Tick();
      BelowTuna(Value(), reserveTuna);
      if midnight {
        Renormalize(reserveTuna);
      }
    }

    /** One second later, across midnight and the ends of months and years. */
    method Tick() returns (midnight: bool)
      requires InRange(Value()) && Value() != TUNA
      modifies this
      ensures InRange(Value()) && Seconds(Value()) == old(Seconds(Value())) + 1
    {
      ghost var before := Value();
      midnight := AdvanceClock();
      if midnight {
        AdvanceDate();
        NextDay(before, Value());
      }
    }

    /** One second later within the day; reports whether midnight was reached. */
    method AdvanceClock() returns (carried: bool)
      requires InRange(Value())
      modifies this`hour, this`minute, this`second
      ensures InRange(Value())
      ensures carried <==> old(TimeOfDay(Value())) == SECONDS_PER_DAY - 1
      ensures TimeOfDay(Value()) == if carried then 0 else old(TimeOfDay(Value())) + 1
      ensures !carried && hour == 23 && minute == 59 && second == 59 ==> old(second) == 58
    {
      second := second + 1;
      if second < 60 { return false; }
      second := 0;
      minute := minute + 1;
      if minute < 60 { return false; }
      minute := 0;
      hour := hour + 1;
      if hour < 24 { return false; }
      hour := 0;
      return true;
    }

    /** The date alone moves on one day. */
    method AdvanceDate()
      requires InRange(Value()) && !(year == 2099 && month == 12 && day == 31)
      modifies this`year, this`month, this`day
      ensures InRange(Value()) && DayNumber(Value()) == old(DayNumber(Value())) + 1
    {
      ghost var before := Value();
      day := day + 1;
      if day <= DaysInMonth(year, month) { return; }
      day := 1;
      month := month + 1;
      if month > 12 {
        month := 1;
        year := year + 1;
      }
      NextMonth(before, Value());
    }

    method StepBackward(reserveTuna: bool)
      requires InRange(Value()) && (reserveTuna ==> Value() != TUNA)
      modifies this
      ensures InRange(Value()) && (reserveTuna ==> Value() != TUNA)
      ensures old(Seconds(Value())) == 0 ==> Value() == old(Value())
      ensures old(Seconds(Value())) != 0 ==> Seconds(Value()) == old(Seconds(Value())) - 1
    {
      FirstSecond(Value());
      WithinLastSecond(Value(), reserveTuna);
      if year == 1 && month == 1 && day == 1 && hour == 0 && minute == 0 && second == 0 {
        return;
      }
      var midnight := Tock();
      BelowTuna(Value(), reserveTuna);
      if midnight {
        Renormalize(reserveTuna);
      }
    }

    /** One second earlier, across midnight and the starts of months and years. */
    method Tock() returns (midnight: bool)
      requires InRange(Value()) && !IsFirstSecond(Value())
      modifies this
      ensures InRange(Value()) && Seconds(Value()) == old(Seconds(Value())) - 1
    {
      ghost var before := Value();
      if second > 0 {
        second := second - 1;
        return false;
      }
      second := 59;
      if minute > 0 {
        minute := minute - 1;
        return false;
      }
      minute := 59;
      if hour > 0 {
        hour := hour - 1;
        return false;
      }
      hour := 23;
      FirstSecond(before);
      DayNumberFromZero(before);
      DecrementDate();
      NextDay(Value(), before);
      return true;
    }

    /** The date alone goes back one day; the time of day is left as it is. */
    method DecrementDate()
      requires InRange(Value()) && DayNumber(Value()) > 0
      modifies this`year, this`month, this`day
      ensures InRange(Value()) && DayNumber(Value()) == old(DayNumber(Value())) - 1
    {
      FirstDay(Value());
      ghost var before := Value();
      if day > 1 {
        day := day - 1;
        return;
      }
      if month > 1 {
        month := month - 1;
      } else {
        month := 12;
        year := year - 1;
      }
      day := DaysInMonth(year, month);
      NextMonth(Value(), before);
    }

    /** The stamp of the folder at the given place of an alphabetical order: one minute per place
        before the newest stamp, never before the start of time, whatever the date arithmetic crosses. */
    method SetSequential(position: nat, reserveTuna: bool)
      modifies this
      ensures InRange(Value())
      ensures var s := Seconds(SEQUENTIAL_TOP) - position * SECONDS_BETWEEN_FOLDERS;
        Seconds(Value()) == if s > 0 then s else 0
    {
      year, month, day, hour, minute, second := 2099, 12, 31, 23, 59, 58;
      NamedSeconds();
      FirstSecond(Value());
      for i := 0 to position * SECONDS_BETWEEN_FOLDERS
        invariant InRange(Value()) && Value() != TUNA
        invariant Seconds(Value()) == if Seconds(SEQUENTIAL_TOP) - i > 0 then Seconds(SEQUENTIAL_TOP) - i else 0
      {
        NormalizedIsProjection(Value(), reserveTuna);
        Step(-1, reserveTuna);
        TunaIsLast(Value());
      }
    }

    /** The stamp of a slot in a category. The arithmetic is on C ints, so the offset must fit one. */
    method SetSas(category: nat, slot: nat)
      requires category * SECONDS_PER_DAY + slot < 0x8000_0000
      modifies this
      ensures InRange(Value())
      ensures Seconds(Value()) == Seconds(SAS_TOP) - (category * SECONDS_PER_DAY + slot)
    {
      year, month, day, hour, minute, second := 2099, 1, 1, 7, 59, 59;
      assert Value() == SAS_TOP;
      var remaining := category * SECONDS_PER_DAY + slot;
      var days := remaining / SECONDS_PER_DAY;
      remaining := remaining % SECONDS_PER_DAY;
      var timeOfDay := hour * 3600 + minute * 60 + second - remaining;
      if timeOfDay < 0 {
        timeOfDay := timeOfDay + SECONDS_PER_DAY;
        days := days + 1;
      }
      SasTopIsLate();
      BackDays(days);
      SetClock(timeOfDay);
    }

    method BackDays(days: nat)
      requires InRange(Value()) && days <= DayNumber(Value())
      modifies this`year, this`month, this`day
      ensures InRange(Value()) && DayNumber(Value()) == old(DayNumber(Value())) - days
    {
      var left := days;
      while left > 0
        invariant 0 <= left <= days
        invariant InRange(Value()) && DayNumber(Value()) == old(DayNumber(Value())) - (days - left)
      {
        left := left - 1;
        DecrementDate();
      }
    }

    method SetClock(timeOfDay: nat)
      requires timeOfDay < SECONDS_PER_DAY
      modifies this`hour, this`minute, this`second
      ensures TimeOfDay(Value()) == timeOfDay
      ensures hour <= 23 && minute <= 59 && second <= 59
    {
      hour := timeOfDay / 3600;
      minute := (timeOfDay % 3600) / 60;
      second := timeOfDay % 60;
    }
  }
}
