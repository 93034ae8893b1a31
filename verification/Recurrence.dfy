/** Recurring events (library/datebookdb.cpp): the closed-form and looping search for the
    next occurrence, proved to give the least day that satisfies the repeat pattern.
    Dates are day numbers; the time of day of an occurrence is that of the event. */
module Recurrence {
  import opened Calendar

  datatype RepeatType = NoRepeat | Daily | Weekly | MonthlyDay | MonthlyDate | Yearly

  datatype Event = Event(start: int, rtype: RepeatType, frequency: int, days: bv7,
                         hasEndDate: bool, endDate: int, exceptions: seq<int>)

  /** A date is null when QDate was asked for a day that does not exist; a null date is
      before every other. */
  datatype QDate = NullDate | Date(day: int)

  datatype Search = NotFound | Found(date: QDate)

  /** What every repeating event satisfies. */
  predicate Usable(e: Event) {
    (e.rtype != NoRepeat ==> 1 <= e.frequency) && (e.rtype == Weekly ==> e.days != 0)
  }

  predicate Ended(e: Event, from: int) { e.hasEndDate && e.endDate < from }

  // ---------- what an event means ----------

  /** Bit i of a weekday mask, Monday being bit 0. */
  predicate InMask(days: bv7, i: nat)
    requires i < 7
  {
    (1 as bv7 << i) & days != 0
  }

  lemma LowBits(days: bv7, i: nat)
    requires i < 4
    ensures InMask(days, i) <==> (days as int) / [1, 2, 4, 8][i] % 2 == 1
  {
    match i
    case 0 => case 1 => case 2 => case 3 =>
  }

  lemma HighBits(days: bv7, i: nat)
    requires 4 <= i < 7
    ensures InMask(days, i) <==> (days as int) / [16, 32, 64][i - 4] % 2 == 1
  {
    match i
    case 4 => case 5 => case 6 =>
  }

  /** What the bits of a mask stand for: Monday for 1, up to Sunday for 64. */
  lemma MaskBits(days: bv7, i: nat)
    requires i < 7
    ensures InMask(days, i) <==> (days as int) / [1, 2, 4, 8, 16, 32, 64][i] % 2 == 1
  {
    if i < 4 {
      LowBits(days, i);
    } else {
      HighBits(days, i);
    }
  }

  predicate Pattern(e: Event, n: int)
    requires Usable(e)
  {
    OnPattern(e.rtype, e.start, e.frequency, e.days, n)
  }

  predicate OnPattern(rtype: RepeatType, start: int, frequency: int, days: bv7, n: int)
    requires rtype != NoRepeat ==> frequency != 0
  {
    match rtype
    case NoRepeat => false
    case Daily => (n - start) % frequency == 0
    case Weekly => InMask(days, n % 7) && (n / 7 - start / 7) % frequency == 0
    case MonthlyDay => (MonthOf(n) - MonthOf(start)) % frequency == 0 && DayOfWeek(n) == DayOfWeek(start)
                       && (Day(n) - 1) / 7 == (Day(start) - 1) / 7
    case MonthlyDate => (MonthOf(n) - MonthOf(start)) % frequency == 0 && Day(n) == Day(start)
    case Yearly => (Year(n) - Year(start)) % frequency == 0
                   && Month(n) == Month(start) && Day(n) == Day(start)
  }

  predicate AlignedMonth(e: Event, k: int)
    requires e.frequency != 0
  {
    (k - MonthOf(e.start)) % e.frequency == 0
  }

  /** The event happens on its start day and, after it, on the days of its pattern. */
  predicate Occurs(e: Event, n: int)
    requires Usable(e)
  {
    n == e.start || (e.start < n && Pattern(e, n))
  }

  ghost predicate Least(e: Event, from: int, n: int)
    requires Usable(e)
  {
    from <= n && Occurs(e, n) && forall m :: from <= m < n ==> !Occurs(e, m)
  }

  /** The answer of a search: the least occurrence unless that is past the end date. */
  ghost predicate Answer(e: Event, from: int, s: Search)
    requires Usable(e)
  {
    match s
    case NotFound =>
      forall n :: from <= n && Occurs(e, n) ==> Ended(e, n) && (e.start < from || Ended(e, from))
    case Found(NullDate) => false
    case Found(Date(n)) => Least(e, from, n) && !Ended(e, from) && (Ended(e, n) ==> n == e.start)
  }

  function Finish(e: Event, n: int): Search {
    if e.hasEndDate && n > e.endDate then NotFound else Found(Date(n))
  }

  lemma FinishLeast(e: Event, from: int, n: int)
    requires Usable(e) && e.start < from && !Ended(e, from) && Least(e, from, n)
    ensures Answer(e, from, Finish(e, n))
  {
  }

  // ---------- daily and weekly ----------

  /** The remainder of C and C++, which takes the sign of the dividend. */
  function CMod(a: int, b: int): int
    requires b > 0
  {
    if a >= 0 then a % b else -((-a) % b)
  }

  lemma Multiple(x: int, f: int) returns (q: int)
    requires f >= 1 && x % f == 0
    ensures x == f * q
  {
    q := x / f;
  }

  function UpTo(a: int, f: int): int
    requires f > 0
  {
    if a % f == 0 then 0 else f - a % f
  }

  predicate On(c: int, f: int, n: int)
    requires f > 0
  {
    (n - c) % f == 0
  }

  predicate OnGrid(c1: int, c2: int, f: int, n: int)
    requires f > 0
  {
    On(c1, f, n) || On(c2, f, n)
  }

  lemma UpToIsOn(c: int, f: int, from: int)
    requires f >= 1
    ensures 0 <= UpTo(from - c, f) < f && On(c, f, from + UpTo(from - c, f))
  {
    var q, r := (from - c) / f, (from - c) % f;
    if r != 0 {
      assert from + UpTo(from - c, f) - c == f * (q + 1) + 0;
      ModOf(q + 1, 0, f);
    }
  }

  lemma BelowUpTo(c: int, f: int, from: int, m: int)
    requires f >= 1 && from <= m < from + UpTo(from - c, f)
    ensures !On(c, f, m)
  {
    var q, r := (from - c) / f, (from - c) % f;
    assert m - c == f * q + (r + (m - from));
    ModOf(q, r + (m - from), f);
  }

  ghost predicate FirstOnGrid(c1: int, c2: int, f: int, from: int, n: int)
    requires f > 0
  {
    from <= n && OnGrid(c1, c2, f, n) && forall m :: from <= m < n ==> !OnGrid(c1, c2, f, m)
  }

  /** The smaller of the two distances leads to the first day of either residue class. */
  lemma GridMin(c1: int, c2: int, f: int, from: int, d: int)
    requires f >= 1
    requires d == var d1, d2 := UpTo(from - c1, f), UpTo(from - c2, f); if d1 < d2 then d1 else d2
    ensures FirstOnGrid(c1, c2, f, from, from + d)
  {
    UpToIsOn(c1, f, from);
    UpToIsOn(c2, f, from);
    forall m | from <= m < from + d
      ensures !OnGrid(c1, c2, f, m)
    {
      BelowUpTo(c1, f, from, m);
      BelowUpTo(c2, f, from, m);
    }
  }

  /** The day the shared tail of the weekly and daily cases comes to: c1 while that is still
      ahead, and otherwise the first day of either residue class. */
  ghost function Periodic(c1: int, c2: int, f: int, from: int): (n: int)
    requires f >= 1
    ensures if c1 > from then n == c1 else FirstOnGrid(c1, c2, f, from, n)
  {
    var d1, d2 := UpTo(from - c1, f), UpTo(from - c2, f);
    var d := if d1 < d2 then d1 else d2;
    GridMin(c1, c2, f, from, d);
    if c1 > from then c1 else from + d
  }

  method NextPeriodic(e: Event, from: int, dayOfWeek: int, firstOfWeek: int, freq: int) returns (s: Search)
    requires freq >= 1 && firstOfWeek <= dayOfWeek
    ensures s == Finish(e, Periodic(e.start + dayOfWeek, e.start + firstOfWeek, freq, from))
  {
    if e.start + dayOfWeek > from {
      var next := e.start + dayOfWeek;
      if next > e.endDate && e.hasEndDate {
        return NotFound;
      }
      return Found(Date(next));
    }
    var diff := CMod(from - (e.start + dayOfWeek), freq);
    var diff2 := CMod(from - (e.start + firstOfWeek), freq);
    if diff != 0 {
      diff := freq - diff;
    }
    if diff2 != 0 {
      diff2 := freq - diff2;
    }
    diff := if diff < diff2 then diff else diff2;
    var next := from + diff;
    if next > e.endDate && e.hasEndDate {
      return NotFound;
    }
    return Found(Date(next));
  }

  method NextDaily(e: Event, from: int) returns (s: Search)
    requires Usable(e) && e.rtype == Daily && e.start < from && !Ended(e, from)
    ensures Answer(e, from, s)
  {
    s := NextPeriodic(e, from, 0, 0, e.frequency);
    ghost var n := Periodic(e.start, e.start, e.frequency, from);
    forall m | from <= m < n
      ensures !Occurs(e, m)
    {
      assert !OnGrid(e.start, e.start, e.frequency, m);
    }
    FinishLeast(e, from, n);
  }

  lemma MaskBit(days: bv7) returns (i: nat)
    requires days != 0
    ensures i < 7 && InMask(days, i)
  {
    if InMask(days, 0) { i := 0; }
    else if InMask(days, 1) { i := 1; }
    else if InMask(days, 2) { i := 2; }
    else if InMask(days, 3) { i := 3; }
    else if InMask(days, 4) { i := 4; }
    else if InMask(days, 5) { i := 5; }
    else { i := 6; }
  }

  /** The first weekday of the mask, and the first at or after g going round the week. */
  ghost predicate MaskSearched(days: bv7, g: int, first: int, w: int) {
    0 <= first < 7 && InMask(days, first) && (forall i :: 0 <= i < first ==> !InMask(days, i))
    && g <= w < g + 7 && InMask(days, w % 7) && (forall i :: g <= i < w ==> !InMask(days, i % 7))
  }

  method FirstMasked(days: bv7) returns (firstOfWeek: int)
    requires days != 0
    ensures 0 <= firstOfWeek < 7 && InMask(days, firstOfWeek)
    ensures forall i :: 0 <= i < firstOfWeek ==> !InMask(days, i)
  {
    ghost var b := MaskBit(days);
    firstOfWeek := 0;
    while !InMask(days, firstOfWeek)
      invariant 0 <= firstOfWeek <= b
      invariant forall i :: 0 <= i < firstOfWeek ==> !InMask(days, i)
      decreases b - firstOfWeek
    {
      firstOfWeek := firstOfWeek + 1;
    }
  }

  lemma MaskAhead(days: bv7, g: int) returns (i: int)
    requires days != 0 && 0 <= g < 7
    ensures g <= i < g + 7 && InMask(days, i % 7)
  {
    var b := MaskBit(days);
    i := if b >= g then b else b + 7;
    assert i % 7 == b;
  }

  method NextMasked(days: bv7, g: int) returns (dayOfWeek: int)
    requires days != 0 && 0 <= g < 7
    ensures g <= dayOfWeek < g + 7 && InMask(days, dayOfWeek % 7)
    ensures forall i :: g <= i < dayOfWeek ==> !InMask(days, i % 7)
  {
    ghost var target := MaskAhead(days, g);
    dayOfWeek := g;
    while !InMask(days, dayOfWeek % 7)
      invariant g <= dayOfWeek <= target
      invariant forall i :: g <= i < dayOfWeek ==> !InMask(days, i % 7)
      decreases target - dayOfWeek
    {
      dayOfWeek := dayOfWeek + 1;
    }
  }

  lemma WeekOfGrid(c: int, w: int, f: int, n: int)
    requires f >= 1 && 0 <= w < 7 && On(7 * c + w, 7 * f, n)
    ensures n % 7 == w && (n / 7 - c) % f == 0
  {
    var q := Multiple(n - (7 * c + w), 7 * f);
    assert n == 7 * (c + f * q) + w by { assert 7 * f * q == 7 * (f * q); }
    ModOf(c + f * q, w, 7);
    ModOf(q, 0, f);
  }

  lemma GridOfWeek(c: int, f: int, w: int, week: int)
    requires f >= 1 && (week - c) % f == 0
    ensures On(7 * c + w, 7 * f, 7 * week + w)
  {
    var q := Multiple(week - c, f);
    assert 7 * week + w - (7 * c + w) == 7 * f * q + 0 by { assert 7 * f * q == 7 * (f * q); }
    ModOf(q, 0, 7 * f);
  }

  /** No occurrence before a weekly candidate: a day of the pattern has a grid day at or
      before it in the same week. */
  lemma WeeklyGridBelow(e: Event, from: int, first: int, w: int, m: int) returns (g: int)
    requires Usable(e) && e.rtype == Weekly && e.start < from <= m && Occurs(e, m)
    requires MaskSearched(e.days, from % 7, first, w)
    ensures var c := e.start / 7;
            from <= g <= m && OnGrid(7 * c + w % 7, 7 * c + first, 7 * e.frequency, g)
  {
    var c, week := e.start / 7, m / 7;
    if week == from / 7 {
      MaskedAfter(e.days, from % 7, first, w, m % 7);
      g := 7 * week + w % 7;
      GridOfWeek(c, e.frequency, w % 7, week);
    } else {
      MaskedFrom(e.days, from % 7, first, w, m % 7);
      g := 7 * week + first;
      GridOfWeek(c, e.frequency, first, week);
    }
  }

  lemma MaskedFrom(days: bv7, g: int, first: int, w: int, i: int)
    requires MaskSearched(days, g, first, w) && 0 <= i < 7 && InMask(days, i)
    ensures first <= i
  {
  }

  /** A masked weekday from g on in the week is no earlier than the one found. */
  lemma MaskedAfter(days: bv7, g: int, first: int, w: int, i: int)
    requires MaskSearched(days, g, first, w) && 0 <= g <= i < 7 && InMask(days, i)
    ensures w < 7 && g <= w % 7 <= i
  {
    assert i % 7 == i;
  }

  lemma InWeek(c: int, n: int)
    requires 7 * c <= n < 7 * c + 7
    ensures n / 7 == c && n % 7 == n - 7 * c
  {
  }

  /** The masked weekday is still ahead in the week the event starts in. */
  lemma WeeklyFirstWeek(e: Event, from: int, first: int, w: int)
    requires Usable(e) && e.rtype == Weekly && e.start < from
    requires MaskSearched(e.days, from % 7, first, w) && 7 * (e.start / 7) + w % 7 > from
    ensures Least(e, from, 7 * (e.start / 7) + w % 7)
  {
    var c := e.start / 7;
    var n := 7 * c + w % 7;
    InWeek(c, n);
    InWeek(c, from);
    forall m | from <= m < n
      ensures !Occurs(e, m)
    {
      InWeek(c, m);
      NotMaskedYet(e.days, from % 7, first, w, m % 7);
    }
  }

  lemma NotMaskedYet(days: bv7, g: int, first: int, w: int, i: int)
    requires MaskSearched(days, g, first, w) && 0 <= g <= i < 7 && i < w % 7
    ensures !InMask(days, i)
  {
    assert i % 7 == i;
  }

  lemma WeeklyGrid(e: Event, from: int, first: int, w: int, n: int)
    requires Usable(e) && e.rtype == Weekly && e.start < from
    requires MaskSearched(e.days, from % 7, first, w)
    requires var c := e.start / 7; FirstOnGrid(7 * c + w % 7, 7 * c + first, 7 * e.frequency, from, n)
    ensures Least(e, from, n)
  {
    GridOccurs(e, from, first, w, n);
    forall m | from <= m < n
      ensures !Occurs(e, m)
    {
      if Occurs(e, m) {
        var g := WeeklyGridBelow(e, from, first, w, m);
        assert false;
      }
    }
  }

  lemma GridOccurs(e: Event, from: int, first: int, w: int, n: int)
    requires Usable(e) && e.rtype == Weekly && e.start < from <= n
    requires MaskSearched(e.days, from % 7, first, w)
    requires var c := e.start / 7; OnGrid(7 * c + w % 7, 7 * c + first, 7 * e.frequency, n)
    ensures Occurs(e, n)
  {
    var c := e.start / 7;
    if On(7 * c + w % 7, 7 * e.frequency, n) {
      WeekOfGrid(c, w % 7, e.frequency, n);
    } else {
      WeekOfGrid(c, first, e.frequency, n);
    }
  }

  lemma WeeklyLeast(e: Event, from: int, first: int, w: int, n: int)
    requires Usable(e) && e.rtype == Weekly && e.start < from
    requires MaskSearched(e.days, from % 7, first, w)
    requires var c := e.start / 7;
             n == Periodic(7 * c + w % 7, 7 * c + first, 7 * e.frequency, from)
    ensures Least(e, from, n)
  {
    if 7 * (e.start / 7) + w % 7 > from {
      WeeklyFirstWeek(e, from, first, w);
    } else {
      WeeklyGrid(e, from, first, w, n);
    }
  }

  lemma FirstIsFirst(days: bv7, g: int, first: int, w: int)
    requires MaskSearched(days, g, first, w)
    ensures first <= w % 7
  {
  }

  lemma WeeklyAnswer(e: Event, from: int, first: int, w: int, dayOfWeek: int, firstOfWeek: int)
    requires Usable(e) && e.rtype == Weekly && e.start < from && !Ended(e, from)
    requires MaskSearched(e.days, from % 7, first, w)
    requires dayOfWeek == w % 7 - e.start % 7 && firstOfWeek == first - e.start % 7
    ensures Answer(e, from, Finish(e, Periodic(e.start + dayOfWeek, e.start + firstOfWeek, e.frequency * 7, from)))
  {
    var n := Periodic(e.start + dayOfWeek, e.start + firstOfWeek, e.frequency * 7, from);
    assert e.start + dayOfWeek == 7 * (e.start / 7) + w % 7;
    assert e.start + firstOfWeek == 7 * (e.start / 7) + first;
    WeeklyLeast(e, from, first, w, n);
    FinishLeast(e, from, n);
  }

  /** After its start a weekly event falls on weekdays of its mask. */
  lemma WeeklyDay(e: Event, n: int)
    requires Usable(e) && e.rtype == Weekly && Occurs(e, n) && e.start < n
    ensures (e.days as int) / [1, 2, 4, 8, 16, 32, 64][n % 7] % 2 == 1
  {
    MaskBits(e.days, n % 7);
  }

  method NextWeekly(e: Event, from: int) returns (s: Search)
    requires Usable(e) && e.rtype == Weekly && e.start < from && !Ended(e, from)
    ensures Answer(e, from, s)
    ensures s.Found? ==> s.date.Date? && (e.days as int) / [1, 2, 4, 8, 16, 32, 64][s.date.day % 7] % 2 == 1
  {
    var firstOfWeek := FirstMasked(e.days);
    var dayOfWeek := NextMasked(e.days, DayOfWeek(from) - 1);
    FirstIsFirst(e.days, from % 7, firstOfWeek, dayOfWeek);
    ghost var first, w := firstOfWeek, dayOfWeek;
    dayOfWeek := dayOfWeek % 7;
    dayOfWeek := dayOfWeek - (DayOfWeek(e.start) - 1);
    firstOfWeek := firstOfWeek % 7;
    firstOfWeek := firstOfWeek - (DayOfWeek(e.start) - 1);
    s := NextPeriodic(e, from, dayOfWeek, firstOfWeek, e.frequency * 7);
    WeeklyAnswer(e, from, first, w, dayOfWeek, firstOfWeek);
    if s.Found? {
      WeeklyDay(e, s.date.day);
    }
  }

  // ---------- monthly ----------

  predicate Monthly(e: Event) {
    Usable(e) && (e.rtype == MonthlyDay || e.rtype == MonthlyDate)
  }

  /** The day of month k an event asks for; the month may be too short to have it. */
  function Slot(e: Event, k: int): int {
    if e.rtype == MonthlyDay then
      1 + (7 + DayOfWeek(e.start) - DayOfWeek(MonthStart(k))) % 7 + 7 * ((Day(e.start) - 1) / 7)
    else Day(e.start)
  }

  predicate Fits(e: Event, k: int) { Slot(e, k) <= MonthLength(k) }

  function SlotDate(e: Event, k: int): int { MonthStart(k) + Slot(e, k) - 1 }

  predicate Eligible(e: Event, from: int, k: int) { Fits(e, k) && from <= SlotDate(e, k) }

  lemma SlotPositive(e: Event, k: int)
    ensures 1 <= Slot(e, k)
  {
  }

  lemma AddWeekdays(x: int, y: int)
    ensures (x + y) % 7 == x % 7 + y % 7 - if x % 7 + y % 7 < 7 then 0 else 7
  {
    var r := x % 7 + y % 7;
    if r < 7 {
      ModOf(x / 7 + y / 7, r, 7);
    } else {
      ModOf(x / 7 + y / 7 + 1, r - 7, 7);
    }
  }

  lemma WeekdaySlot(start: int, dow: int, wom: int, d: int)
    requires 1 <= dow <= 7 && 0 <= d
    ensures ((start + d) % 7 + 1 == dow && d / 7 == wom)
            <==> d == (7 + dow - (start % 7 + 1)) % 7 + 7 * wom
  {
    AddWeekdays(start, d);
    var r := 6 + dow - start % 7;
    if r < 7 {
      ModOf(0, r, 7);
      ModOf(wom, r, 7);
    } else {
      ModOf(1, r - 7, 7);
      ModOf(wom, r - 7, 7);
    }
  }

  lemma WeekdayIsSlot(e: Event, n: int)
    requires e.rtype == MonthlyDay
    ensures DayOfWeek(n) == DayOfWeek(e.start) && (Day(n) - 1) / 7 == (Day(e.start) - 1) / 7
            <==> Day(n) == Slot(e, MonthOf(n))
  {
    WeekdaySlot(MonthStart(MonthOf(n)), DayOfWeek(e.start), (Day(e.start) - 1) / 7, Day(n) - 1);
  }

  /** A day matches a monthly pattern exactly when it is the slot of an aligned month. */
  lemma PatternIsSlot(e: Event, n: int)
    requires Monthly(e)
    ensures Pattern(e, n) <==> AlignedMonth(e, MonthOf(n)) && Day(n) == Slot(e, MonthOf(n))
  {
    if e.rtype == MonthlyDay {
      WeekdayIsSlot(e, n);
    }
  }

  lemma SlotOccurs(e: Event, from: int, k: int)
    requires Monthly(e) && e.start < from && AlignedMonth(e, k) && Eligible(e, from, k)
    ensures Occurs(e, SlotDate(e, k)) && MonthOf(SlotDate(e, k)) == k
  {
    SlotPositive(e, k);
    MonthOfUnique(SlotDate(e, k), k);
    PatternIsSlot(e, SlotDate(e, k));
  }

  lemma OccursInSlot(e: Event, from: int, n: int)
    requires Monthly(e) && e.start < from <= n && Occurs(e, n)
    ensures var k := MonthOf(n);
            MonthOf(from) <= k && AlignedMonth(e, k) && Eligible(e, from, k) && n == SlotDate(e, k)
  {
    PatternIsSlot(e, n);
    MonthOfMonotone(from, n);
  }

  ghost predicate NoneBefore(e: Event, from: int, k: int)
    requires Monthly(e)
  {
    forall j {:trigger Eligible(e, from, j)} ::
      MonthOf(from) <= j < k && AlignedMonth(e, j) ==> !Eligible(e, from, j)
  }

  lemma MonthlyLeast(e: Event, from: int, k: int)
    requires Monthly(e) && e.start < from && AlignedMonth(e, k)
    requires NoneBefore(e, from, k) && Eligible(e, from, k)
    ensures Least(e, from, SlotDate(e, k))
  {
    SlotOccurs(e, from, k);
    forall n | from <= n < SlotDate(e, k)
      ensures !Occurs(e, n)
    {
      if Occurs(e, n) {
        OccursInSlot(e, from, n);
        MonthOfMonotone(n, SlotDate(e, k));
        assert false;
      }
    }
  }

  /** Giving up at a month whose first day is past the end loses nothing. */
  lemma MonthlyEnded(e: Event, from: int, k: int)
    requires Monthly(e) && e.start < from && NoneBefore(e, from, k)
    requires e.hasEndDate && MonthStart(k) > e.endDate
    ensures Answer(e, from, NotFound)
  {
    forall n | from <= n && Occurs(e, n)
      ensures Ended(e, n)
    {
      OccursInSlot(e, from, n);
      var j := MonthOf(n);
      assert k <= j;
      MonthsIncrease(k, j);
    }
  }

  lemma SameClass(f: int, k: int, j: int, base: int)
    requires f >= 1 && (k - base) % f == 0 && (j - base) % f == 0 && k <= j < k + f
    ensures j == k
  {
    var a := Multiple(k - base, f);
    assert j - base == f * a + (j - k);
    ModOf(a, j - k, f);
  }

  lemma StepAligned(f: int, k: int, base: int)
    requires f >= 1 && (k - base) % f == 0
    ensures (k + f - base) % f == 0
  {
    var a := Multiple(k - base, f);
    assert k + f - base == f * (a + 1) + 0;
    ModOf(a + 1, 0, f);
  }

  lemma NoneBeforeStep(e: Event, from: int, k: int)
    requires Monthly(e) && AlignedMonth(e, k) && NoneBefore(e, from, k) && !Eligible(e, from, k)
    ensures NoneBefore(e, from, k + e.frequency) && AlignedMonth(e, k + e.frequency)
  {
    StepAligned(e.frequency, k, MonthOf(e.start));
    forall j {:trigger Eligible(e, from, j)} | MonthOf(from) <= j < k + e.frequency && AlignedMonth(e, j)
      ensures !Eligible(e, from, j)
    {
      if k <= j {
        SameClass(e.frequency, k, j, MonthOf(e.start));
      }
    }
  }

  // ---------- why the month loops end: the calendar repeats ----------

  ghost function Horizon(e: Event, k: int): int {
    MonthOf(e.start) + 4800 * (e.frequency * Ahead(e, k))
  }

  ghost function Ahead(e: Event, k: int): nat {
    if k > MonthOf(e.start) then k - MonthOf(e.start) else 0
  }

  lemma HorizonAhead(f: int, t: nat)
    requires f >= 1
    ensures 0 <= t <= f * t && (4800 * (f * t)) % f == 0
  {
    assert (f - 1) * t >= 0;
    assert 4800 * (f * t) == f * (4800 * t) + 0;
    ModOf(4800 * t, 0, f);
  }

  lemma SlotRepeats(e: Event, t: nat)
    requires Monthly(e)
    ensures Fits(e, MonthOf(e.start) + 4800 * t)
  {
    PeriodMany(MonthOf(e.start), t);
    if e.rtype == MonthlyDay {
      WeekdaySlot(MonthStart(MonthOf(e.start)), DayOfWeek(e.start), (Day(e.start) - 1) / 7,
                  Day(e.start) - 1);
    }
  }

  /** At or after every month there is an aligned one that has the slot. */
  lemma HorizonFits(e: Event, k: int)
    requires Monthly(e)
    ensures k <= Horizon(e, k) && AlignedMonth(e, Horizon(e, k)) && Fits(e, Horizon(e, k))
  {
    HorizonAhead(e.frequency, Ahead(e, k));
    SlotRepeats(e, e.frequency * Ahead(e, k));
  }

  lemma StepWithin(e: Event, k: int, last: int)
    requires Monthly(e) && AlignedMonth(e, k) && AlignedMonth(e, last)
    requires k <= last && !Fits(e, k) && Fits(e, last)
    ensures k + e.frequency <= last
  {
    if last < k + e.frequency {
      SameClass(e.frequency, k, last, MonthOf(e.start));
    }
  }

  // ---------- the month searches ----------

  method Normalise(iyear: int, imonth: int) returns (y: int, m: int)
    ensures 1 <= m <= 12 && MonthIndex(y, m) == MonthIndex(iyear, imonth)
  {
    m := imonth - 1;
    y := iyear + m / 12;
    m := m % 12;
    m := m + 1;
  }

  method Advance(iyear: int, imonth: int, step: int) returns (y: int, m: int)
    requires 1 <= imonth <= 12 && step >= 0
    ensures 1 <= m <= 12 && MonthIndex(y, m) == MonthIndex(iyear, imonth) + step
  {
    y, m := iyear, imonth + step;
    if m > 12 {
      y, m := Normalise(y, m);
    }
  }

  lemma FirstAligned(e: Event, from: int, a: int, step: int)
    requires Monthly(e) && a == MonthOf(from) - MonthOf(e.start) && step == UpTo(a, e.frequency)
    ensures AlignedMonth(e, MonthOf(from) + step) && NoneBefore(e, from, MonthOf(from) + step)
  {
    UpToIsOn(MonthOf(e.start), e.frequency, MonthOf(from));
    forall j {:trigger Eligible(e, from, j)} | MonthOf(from) <= j < MonthOf(from) + step
      ensures !AlignedMonth(e, j)
    {
      BelowUpTo(MonthOf(e.start), e.frequency, MonthOf(from), j);
    }
  }

  /** The month a search stands at: aligned, with nothing missed before it. */
  ghost predicate Standing(e: Event, from: int, iyear: int, imonth: int)
    requires Monthly(e)
  {
    1 <= imonth <= 12 && MonthOf(from) <= MonthIndex(iyear, imonth)
    && AlignedMonth(e, MonthIndex(iyear, imonth))
    && NoneBefore(e, from, MonthIndex(iyear, imonth))
  }

  /** The first month on or after that of from that the frequency allows. */
  method FirstMonth(e: Event, from: int) returns (iyear: int, imonth: int)
    requires Monthly(e) && e.start < from
    ensures Standing(e, from, iyear, imonth)
  {
    iyear := Year(from);
    imonth := Month(from);
    var a := Year(from) - Year(e.start);
    a := a * 12;
    a := a + (imonth - Month(e.start));
    JoinMonth(MonthOf(from));
    JoinMonth(MonthOf(e.start));
    MonthOfMonotone(e.start, from);
    FirstAligned(e, from, a, UpTo(a, e.frequency));
    if CMod(a, e.frequency) != 0 {
      a := e.frequency - CMod(a, e.frequency);
      iyear, imonth := Advance(iyear, Month(from), a);
    }
  }

  lemma LaterMonth(e: Event, from: int, k: int)
    requires Monthly(e) && MonthOf(from) < k && Fits(e, k)
    ensures Eligible(e, from, k)
  {
    MonthsIncrease(MonthOf(from) + 1, k);
    SlotPositive(e, k);
  }

  method StepMonth(e: Event, from: int, iyear: int, imonth: int) returns (y: int, m: int)
    requires Monthly(e) && Standing(e, from, iyear, imonth)
    requires !Eligible(e, from, MonthIndex(iyear, imonth))
    ensures Standing(e, from, y, m) && MonthIndex(y, m) == MonthIndex(iyear, imonth) + e.frequency
  {
    NoneBeforeStep(e, from, MonthIndex(iyear, imonth));
    y, m := Advance(iyear, imonth, e.frequency);
  }

  function WeekdayInMonth(iyear: int, imonth: int, dayOfWeek: int, weekOfMonth: int): int {
    1 + (7 + dayOfWeek - DayOfWeek(DayNumber(iyear, imonth, 1))) % 7 + 7 * weekOfMonth
  }

  lemma WeekdayInSlot(e: Event, iyear: int, imonth: int)
    requires e.rtype == MonthlyDay && 1 <= imonth <= 12
    ensures WeekdayInMonth(iyear, imonth, DayOfWeek(e.start), (Day(e.start) - 1) / 7)
            == Slot(e, MonthIndex(iyear, imonth))
    ensures MonthLength(MonthIndex(iyear, imonth)) == DaysInMonth(iyear, imonth)
  {
    SplitMonth(iyear, imonth);
  }

  /** To the next aligned month and its day; there is still one that has the day. */
  method StepWeekday(e: Event, from: int, iyear0: int, imonth0: int, dayOfWeek: int, weekOfMonth: int,
                     ghost last: int)
    returns (iyear: int, imonth: int, iday: int)
    requires Monthly(e) && e.rtype == MonthlyDay && Standing(e, from, iyear0, imonth0)
    requires dayOfWeek == DayOfWeek(e.start) && weekOfMonth == (Day(e.start) - 1) / 7
    requires !Fits(e, MonthIndex(iyear0, imonth0)) && AlignedMonth(e, last) && Fits(e, last)
    requires MonthIndex(iyear0, imonth0) <= last
    ensures Standing(e, from, iyear, imonth) && iday == Slot(e, MonthIndex(iyear, imonth))
    ensures MonthLength(MonthIndex(iyear, imonth)) == DaysInMonth(iyear, imonth)
    ensures MonthIndex(iyear0, imonth0) < MonthIndex(iyear, imonth) <= last
  {
    StepWithin(e, MonthIndex(iyear0, imonth0), last);
    iyear, imonth := StepMonth(e, from, iyear0, imonth0);
    WeekdayInSlot(e, iyear, imonth);
    iday := WeekdayInMonth(iyear, imonth, dayOfWeek, weekOfMonth);
  }

  /** Steps until the month has the wanted weekday; stops early past the end date. */
  method SeekWeekday(e: Event, from: int, iyear0: int, imonth0: int, dayOfWeek: int, weekOfMonth: int)
    returns (stop: bool, iyear: int, imonth: int, iday: int)
    requires Monthly(e) && e.rtype == MonthlyDay && e.start < from
    requires dayOfWeek == DayOfWeek(e.start) && weekOfMonth == (Day(e.start) - 1) / 7
    requires Standing(e, from, iyear0, imonth0)
    ensures stop ==> Answer(e, from, NotFound)
    ensures !stop ==> Standing(e, from, iyear, imonth) && iday == Slot(e, MonthIndex(iyear, imonth))
    ensures !stop ==> Fits(e, MonthIndex(iyear, imonth))
    ensures !stop ==> MonthIndex(iyear0, imonth0) <= MonthIndex(iyear, imonth)
  {
    iyear, imonth := iyear0, imonth0;
    ghost var last := Horizon(e, MonthIndex(iyear, imonth));
    HorizonFits(e, MonthIndex(iyear, imonth));
    iday := WeekdayInMonth(iyear, imonth, dayOfWeek, weekOfMonth);
    WeekdayInSlot(e, iyear, imonth);
    while iday > DaysInMonth(iyear, imonth)
      invariant Standing(e, from, iyear, imonth) && iday == Slot(e, MonthIndex(iyear, imonth))
      invariant MonthLength(MonthIndex(iyear, imonth)) == DaysInMonth(iyear, imonth)
      invariant MonthIndex(iyear0, imonth0) <= MonthIndex(iyear, imonth) <= last
      decreases last - MonthIndex(iyear, imonth)
    {
      iyear, imonth, iday := StepWeekday(e, from, iyear, imonth, dayOfWeek, weekOfMonth, last);
      if DayNumber(iyear, imonth, 1) > e.endDate && e.hasEndDate {
        MonthlyEnded(e, from, MonthIndex(iyear, imonth));
        return true, iyear, imonth, iday;
      }
    }
    stop := false;
  }

  method NextMonthlyDay(e: Event, from: int) returns (s: Search)
    requires Usable(e) && e.rtype == MonthlyDay && e.start < from && !Ended(e, from)
    ensures Answer(e, from, s)
  {
    var dayOfWeek := DayOfWeek(e.start);
    var weekOfMonth := (Day(e.start) - 1) / 7;
    var iyear, imonth := FirstMonth(e, from);
    var stop, iday;
    stop, iyear, imonth, iday := SeekWeekday(e, from, iyear, imonth, dayOfWeek, weekOfMonth);
    if stop {
      return NotFound;
    }
    var tmpDate := DayNumber(iyear, imonth, iday);
    if tmpDate >= from {
      s := FinishMonth(e, from, iyear, imonth, tmpDate);
    } else {
      s := CycleWeekday(e, from, iyear, imonth, dayOfWeek, weekOfMonth);
    }
  }

  /** The slot of this month is already over: go on to the next month that has one. */
  method CycleWeekday(e: Event, from: int, iyear0: int, imonth0: int, dayOfWeek: int, weekOfMonth: int)
    returns (s: Search)
    requires Monthly(e) && e.rtype == MonthlyDay && e.start < from && !Ended(e, from)
    requires dayOfWeek == DayOfWeek(e.start) && weekOfMonth == (Day(e.start) - 1) / 7
    requires Standing(e, from, iyear0, imonth0)
    requires !Eligible(e, from, MonthIndex(iyear0, imonth0))
    ensures Answer(e, from, s)
  {
    var iyear, imonth := StepMonth(e, from, iyear0, imonth0);
    if DayNumber(iyear, imonth, 1) > e.endDate && e.hasEndDate {
      MonthlyEnded(e, from, MonthIndex(iyear, imonth));
      return NotFound;
    }
    var stop, iday;
    stop, iyear, imonth, iday := SeekWeekday(e, from, iyear, imonth, dayOfWeek, weekOfMonth);
    if stop {
      return NotFound;
    }
    LaterMonth(e, from, MonthIndex(iyear, imonth));
    s := FinishMonth(e, from, iyear, imonth, DayNumber(iyear, imonth, iday));
  }

  method FinishMonth(e: Event, from: int, iyear: int, imonth: int, tmpDate: int) returns (s: Search)
    requires Monthly(e) && e.start < from && !Ended(e, from) && Standing(e, from, iyear, imonth)
    requires Eligible(e, from, MonthIndex(iyear, imonth))
    requires tmpDate == SlotDate(e, MonthIndex(iyear, imonth))
    ensures Answer(e, from, s)
  {
    MonthlyLeast(e, from, MonthIndex(iyear, imonth));
    FinishLeast(e, from, tmpDate);
    if tmpDate > e.endDate && e.hasEndDate {
      return NotFound;
    }
    return Found(Date(tmpDate));
  }

  /** Steps until the month is long enough; stops early past the end date. */
  method SeekDay(e: Event, from: int, iyear0: int, imonth0: int, iday: int)
    returns (stop: bool, iyear: int, imonth: int)
    requires Monthly(e) && e.rtype == MonthlyDate && e.start < from && iday == Day(e.start)
    requires Standing(e, from, iyear0, imonth0)
    ensures stop ==> Answer(e, from, NotFound)
    ensures !stop ==> Standing(e, from, iyear, imonth) && Fits(e, MonthIndex(iyear, imonth))
    ensures !stop ==> MonthIndex(iyear0, imonth0) <= MonthIndex(iyear, imonth)
  {
    iyear, imonth := iyear0, imonth0;
    ghost var last := Horizon(e, MonthIndex(iyear, imonth));
    HorizonFits(e, MonthIndex(iyear, imonth));
    SplitMonth(iyear, imonth);
    while !ValidDate(iyear, imonth, iday)
      invariant Standing(e, from, iyear, imonth)
      invariant MonthLength(MonthIndex(iyear, imonth)) == DaysInMonth(iyear, imonth)
      invariant MonthIndex(iyear0, imonth0) <= MonthIndex(iyear, imonth) <= last
      decreases last - MonthIndex(iyear, imonth)
    {
      StepWithin(e, MonthIndex(iyear, imonth), last);
      iyear, imonth := StepMonth(e, from, iyear, imonth);
      SplitMonth(iyear, imonth);
      if DayNumber(iyear, imonth, 1) > e.endDate && e.hasEndDate {
        MonthlyEnded(e, from, MonthIndex(iyear, imonth));
        return true, iyear, imonth;
      }
    }
    stop := false;
  }

  method NextMonthlyDate(e: Event, from: int) returns (s: Search)
    requires Usable(e) && e.rtype == MonthlyDate && e.start < from && !Ended(e, from)
    ensures Answer(e, from, s)
  {
    var iday := Day(e.start);
    var iyear, imonth := FirstMonth(e, from);
    var stop;
    stop, iyear, imonth := SeekDay(e, from, iyear, imonth, iday);
    if stop {
      return NotFound;
    }
    if DayNumber(iyear, imonth, iday) >= from {
      s := FinishMonth(e, from, iyear, imonth, DayNumber(iyear, imonth, iday));
      return;
    }
    iyear, imonth := StepMonth(e, from, iyear, imonth);
    stop, iyear, imonth := SeekDay(e, from, iyear, imonth, iday);
    if stop {
      return NotFound;
    }
    LaterMonth(e, from, MonthIndex(iyear, imonth));
    s := FinishMonth(e, from, iyear, imonth, DayNumber(iyear, imonth, iday));
  }

  // ---------- yearly ----------

  predicate LeapDay(e: Event) { Month(e.start) == 2 && Day(e.start) > 28 }

  /** The step between candidate years: for 29 February the least common multiple of the
      frequency and 4. */
  function YearStep(e: Event): int {
    if LeapDay(e) && e.frequency % 4 != 0 then
      (if e.frequency % 2 != 0 then e.frequency * 4 else e.frequency * 2)
    else e.frequency
  }

  predicate AlignedYear(e: Event, y: int)
    requires Usable(e) && e.rtype == Yearly
  {
    StepPositive(e);
    (y - Year(e.start)) % YearStep(e) == 0
  }

  lemma StepPositive(e: Event)
    requires Usable(e) && e.rtype == Yearly
    ensures YearStep(e) >= 1
  {
  }

  predicate InYear(e: Event, y: int) { ValidDate(y, Month(e.start), Day(e.start)) }

  function Anniversary(e: Event, y: int): int { DayNumber(y, Month(e.start), Day(e.start)) }

  predicate EligibleYear(e: Event, from: int, y: int) { InYear(e, y) && from <= Anniversary(e, y) }

  /** The step loses nothing: a leap year is a multiple of the frequency away exactly when
      it is a multiple of the step away. */
  lemma StepIsCommon(f: int, step: int, x: int)
    requires f >= 1 && x % 4 == 0
    requires step == if f % 4 == 0 then f else if f % 2 == 0 then f * 2 else f * 4
    ensures x % f == 0 <==> x % step == 0
  {
    if x % f == 0 {
      var q := Multiple(x, f);
      if f % 4 == 0 {
      } else if f % 2 == 0 {
        HalfEven(f, q);
        TimesTwice(f, q, 2);
      } else {
        QuarterOdd(f, q);
        TimesTwice(f, q, 4);
      }
    } else if x % step == 0 {
      var c := if f % 4 == 0 then 1 else if f % 2 == 0 then 2 else 4;
      StepMultiple(f, c, x);
    }
  }

  lemma TimesTwice(f: int, q: int, c: int)
    requires f >= 1 && c >= 1 && q % c == 0
    ensures (f * q) % (f * c) == 0
  {
    var j := Multiple(q, c);
    assert f * q == (f * c) * j + 0;
    ModOf(j, 0, f * c);
  }

  lemma StepMultiple(f: int, c: int, x: int)
    requires f >= 1 && c >= 1 && x % (f * c) == 0
    ensures x % f == 0
  {
    var q := Multiple(x, f * c);
    assert x == f * (c * q) + 0;
    ModOf(c * q, 0, f);
  }

  lemma HalfEven(f: int, q: int)
    requires f % 4 == 2 && (f * q) % 4 == 0
    ensures q % 2 == 0
  {
    var h, j, b := f / 4, q / 2, q % 2;
    assert f * q == (4 * h + 2) * q == 4 * (h * q + j) + 2 * b;
    ModOf(h * q + j, 2 * b, 4);
  }

  lemma QuarterOdd(f: int, q: int)
    requires f % 2 == 1 && (f * q) % 4 == 0
    ensures q % 4 == 0
  {
    var h, r := f / 4, f % 4;
    Residue(f, 2, 2);
    assert f * q == (4 * h + r) * q == 4 * (h * q) + r * q;
    FourDivides(h * q, r, q);
  }

  lemma FourDivides(p: int, r: int, q: int)
    requires r == 1 || r == 3
    requires (4 * p + r * q) % 4 == 0
    ensures q % 4 == 0
  {
    var j, b := q / 4, q % 4;
    if r == 1 {
      assert 4 * p + q == 4 * (p + j) + b;
      ModOf(p + j, b, 4);
    } else if b == 1 {
      ModOf(p + 3 * j, 3, 4);
    } else if b == 2 {
      ModOf(p + 3 * j + 1, 2, 4);
    } else if b == 3 {
      ModOf(p + 3 * j + 2, 1, 4);
    }
  }

  /** Only 29 February is ever missing from a year. */
  lemma InYearIsLeap(e: Event, y: int)
    ensures InYear(e, y) <==> (LeapDay(e) ==> Leap(y))
    ensures LeapDay(e) ==> Leap(Year(e.start))
  {
    DayNumberOfDate(e.start);
  }

  /** A day matches a yearly pattern exactly when it is the anniversary in an aligned year. */
  lemma PatternIsAnniversary(e: Event, n: int)
    requires Usable(e) && e.rtype == Yearly
    ensures Pattern(e, n)
            <==> AlignedYear(e, Year(n)) && InYear(e, Year(n)) && n == Anniversary(e, Year(n))
  {
    DayNumberOfDate(n);
    if InYear(e, Year(n)) {
      DateOfDayNumber(Year(n), Month(e.start), Day(e.start));
      AlignedIffFrequency(e, Year(n));
    }
  }

  lemma AlignedIffFrequency(e: Event, y: int)
    requires Usable(e) && e.rtype == Yearly && InYear(e, y)
    ensures AlignedYear(e, y) <==> (y - Year(e.start)) % e.frequency == 0
  {
    InYearIsLeap(e, y);
    if LeapDay(e) {
      FourBack(y, Year(e.start));
      StepIsCommon(e.frequency, YearStep(e), y - Year(e.start));
    }
  }

  ghost predicate NoYearBefore(e: Event, from: int, y: int)
    requires Usable(e) && e.rtype == Yearly
  {
    forall j {:trigger EligibleYear(e, from, j)} ::
      Year(from) <= j < y && AlignedYear(e, j) ==> !EligibleYear(e, from, j)
  }

  lemma YearMonotone(a: int, b: int)
    requires a <= b
    ensures Year(a) <= Year(b)
  {
    MonthOfMonotone(a, b);
  }

  lemma AnniversaryOccurs(e: Event, from: int, y: int)
    requires Usable(e) && e.rtype == Yearly && e.start < from && AlignedYear(e, y) && EligibleYear(e, from, y)
    ensures Occurs(e, Anniversary(e, y)) && Year(Anniversary(e, y)) == y
  {
    DateOfDayNumber(y, Month(e.start), Day(e.start));
    PatternIsAnniversary(e, Anniversary(e, y));
  }

  lemma OccursOnAnniversary(e: Event, from: int, n: int)
    requires Usable(e) && e.rtype == Yearly && e.start < from <= n && Occurs(e, n)
    ensures var k := Year(n);
            Year(from) <= k && AlignedYear(e, k) && EligibleYear(e, from, k) && n == Anniversary(e, k)
  {
    PatternIsAnniversary(e, n);
    YearMonotone(from, n);
  }

  lemma NotEarlier(e: Event, from: int, y: int, n: int)
    requires Usable(e) && e.rtype == Yearly && e.start < from
    requires AlignedYear(e, y) && NoYearBefore(e, from, y) && EligibleYear(e, from, y)
    requires from <= n < Anniversary(e, y)
    ensures !Occurs(e, n)
  {
    AnniversaryOccurs(e, from, y);
    YearMonotone(n, Anniversary(e, y));
    if Occurs(e, n) {
      OccursOnAnniversary(e, from, n);
      assert false;
    }
  }

  lemma YearlyLeast(e: Event, from: int, y: int)
    requires Usable(e) && e.rtype == Yearly && e.start < from
    requires AlignedYear(e, y) && NoYearBefore(e, from, y) && EligibleYear(e, from, y)
    ensures Least(e, from, Anniversary(e, y))
  {
    AnniversaryOccurs(e, from, y);
    forall n | from <= n < Anniversary(e, y)
      ensures !Occurs(e, n)
    {
      NotEarlier(e, from, y, n);
    }
  }

  lemma NoYearBeforeStep(e: Event, from: int, y: int)
    requires Usable(e) && e.rtype == Yearly && AlignedYear(e, y) && NoYearBefore(e, from, y)
    requires !EligibleYear(e, from, y)
    ensures NoYearBefore(e, from, y + YearStep(e)) && AlignedYear(e, y + YearStep(e))
  {
    StepAligned(YearStep(e), y, Year(e.start));
    forall j {:trigger EligibleYear(e, from, j)} |
      Year(from) <= j < y + YearStep(e) && AlignedYear(e, j)
      ensures !EligibleYear(e, from, j)
    {
      if y <= j {
        SameClass(YearStep(e), y, j, Year(e.start));
      }
    }
  }

  lemma NotAlignedYear(e: Event, from: int, step: int, j: int)
    requires Usable(e) && e.rtype == Yearly
    requires step == UpTo(Year(from) - Year(e.start), YearStep(e))
    requires Year(from) <= j < Year(from) + step
    ensures !AlignedYear(e, j)
  {
    BelowUpTo(Year(e.start), YearStep(e), Year(from), j);
  }

  lemma NoneBeforeFirst(e: Event, from: int, step: int)
    requires Usable(e) && e.rtype == Yearly
    requires step == UpTo(Year(from) - Year(e.start), YearStep(e))
    ensures NoYearBefore(e, from, Year(from) + step)
  {
    forall j {:trigger EligibleYear(e, from, j)} | Year(from) <= j < Year(from) + step
      ensures !AlignedYear(e, j)
    {
      NotAlignedYear(e, from, step, j);
    }
  }

  lemma FirstOnStep(e: Event, from: int, step: int, f: int)
    requires Usable(e) && e.rtype == Yearly && f == YearStep(e) && f >= 1
    requires step == UpTo(Year(from) - Year(e.start), f)
    ensures 0 <= step < f && AlignedYear(e, Year(from) + step)
  {
    UpToIsOn(Year(e.start), f, Year(from));
  }

  lemma FirstAlignedYear(e: Event, from: int, step: int)
    requires Usable(e) && e.rtype == Yearly
    requires step == UpTo(Year(from) - Year(e.start), YearStep(e))
    ensures 0 <= step < YearStep(e)
    ensures AlignedYear(e, Year(from) + step) && NoYearBefore(e, from, Year(from) + step)
  {
    FirstOnStep(e, from, step, YearStep(e));
    NoneBeforeFirst(e, from, step);
  }

  lemma LaterYear(e: Event, from: int, y: int)
    requires Year(from) < y && InYear(e, y)
    ensures EligibleYear(e, from, y)
  {
    DateOfDayNumber(y, Month(e.start), Day(e.start));
    if Anniversary(e, y) < from {
      YearMonotone(Anniversary(e, y), from);
    }
  }

  // ---------- when two candidate years in a row lack 29 February ----------

  /** 29 February repeated every 25, 50, 75, 100, ... years (a multiple of 25 but not of
      200), and a year of it that is a multiple of 400: the next two candidate years are
      both without the day. */
  predicate LosesDay(e: Event, y: int) {
    Usable(e) && e.rtype == Yearly && LeapDay(e)
    && e.frequency % 25 == 0 && e.frequency % 200 != 0
    && (y - Year(e.start)) % e.frequency == 0 && y % 400 == 0
  }

  /** The searches that answer with a date that does not exist: those from after the day in
      such a year. */
  predicate SkipsTwice(e: Event, from: int) {
    LosesDay(e, Year(from)) && e.start < from && !Ended(e, from) && DayNumber(Year(from), 2, 29) < from
  }

  lemma Centuries(x: int)
    ensures x % 100 == 0 <==> x % 400 in [0, 100, 200, 300]
    ensures x % 200 == 0 <==> x % 400 in [0, 200]
  {
    Residue(x, 100, 4);
    Residue(x, 200, 2);
  }

  lemma NonLeap(y: int)
    requires y % 4 == 0
    ensures Leap(y) <==> y % 400 !in [100, 200, 300]
  {
    Centuries(y);
  }

  lemma AddResidue(x: int, y: int)
    ensures (x + y) % 400 == x % 400 + y % 400 - if x % 400 + y % 400 < 400 then 0 else 400
  {
    var r := x % 400 + y % 400;
    if r < 400 {
      ModOf(x / 400 + y / 400, r, 400);
    } else {
      ModOf(x / 400 + y / 400 + 1, r - 400, 400);
    }
  }

  lemma FourStep(y: int, step: int)
    requires y % 4 == 0 && step % 4 == 0
    ensures (y + step) % 4 == 0
  {
  }

  lemma TwoCenturies(y: int, step: int)
    requires y % 4 == 0 && step % 4 == 0 && Leap(y)
    ensures !Leap(y + step) && !Leap(y + step + step)
            <==> step % 100 == 0 && step % 200 != 0 && y % 400 == 0
  {
    FourStep(y, step);
    FourStep(y + step, step);
    NonLeap(y);
    NonLeap(y + step);
    NonLeap(y + step + step);
    AddResidue(y, step);
    AddResidue(y + step, step);
    Centuries(step);
  }

  lemma FourTimes(f: int)
    ensures (f * 4) % 100 == 0 <==> f % 25 == 0
    ensures (f * 4) % 200 == 0 <==> f % 50 == 0
  {
    assert f * 4 == 100 * (f / 25) + 4 * (f % 25);
    ModOf(f / 25, 4 * (f % 25), 100);
    assert f * 4 == 200 * (f / 50) + 4 * (f % 50);
    ModOf(f / 50, 4 * (f % 50), 200);
  }

  lemma OddStep(f: int)
    requires f % 2 == 1
    ensures (f * 4) % 4 == 0 && (f * 4) % 200 != 0 && f % 200 != 0
    ensures (f * 4) % 100 == 0 <==> f % 25 == 0
  {
    FourTimes(f);
    Residue(f, 2, 25);
    Residue(f, 2, 100);
  }

  lemma TwoTimes(f: int)
    ensures (f * 2) % 100 == 0 <==> f % 50 == 0
    ensures (f * 2) % 200 == 0 <==> f % 100 == 0
  {
    assert f * 2 == 100 * (f / 50) + 2 * (f % 50);
    ModOf(f / 50, 2 * (f % 50), 100);
    assert f * 2 == 200 * (f / 100) + 2 * (f % 100);
    ModOf(f / 100, 2 * (f % 100), 200);
  }

  /** An even number is a multiple of 50 when it is one of 25. */
  lemma EvenFifty(f: int)
    requires f % 2 == 0
    ensures f % 50 == 0 <==> f % 25 == 0
  {
    Residue(f, 25, 2);
    Residue(f, 2, 25);
    var r := f % 50;
    if r % 25 == 0 {
      assert r == 0 || r == 25;
    }
  }

  lemma EvenStep(f: int)
    requires f % 4 == 2
    ensures (f * 2) % 4 == 0 && (f * 2) % 200 != 0 && f % 200 != 0
    ensures (f * 2) % 100 == 0 <==> f % 25 == 0
  {
    Residue(f, 2, 2);
    EvenFifty(f);
    TwoTimes(f);
    Residue(f, 4, 25);
    Residue(f, 4, 50);
    assert f * 2 == 4 * (2 * (f / 4) + 1) + 0;
    ModOf(2 * (f / 4) + 1, 0, 4);
  }

  lemma FourthStep(f: int)
    requires f % 4 == 0
    ensures f % 100 == 0 <==> f % 25 == 0
  {
    Residue(f, 25, 4);
    Residue(f, 4, 25);
  }

  lemma CenturySteps(f: int, step: int)
    requires step == if f % 4 == 0 then f else if f % 2 == 0 then f * 2 else f * 4
    ensures step % 4 == 0
    ensures step % 100 == 0 && step % 200 != 0 <==> f % 25 == 0 && f % 200 != 0
  {
    if f % 2 == 1 {
      OddStep(f);
    } else if f % 4 == 2 {
      EvenStep(f);
    } else {
      FourthStep(f);
    }
  }

  lemma StepCenturies(e: Event)
    requires Usable(e) && e.rtype == Yearly && LeapDay(e)
    ensures YearStep(e) % 4 == 0
    ensures YearStep(e) % 100 == 0 && YearStep(e) % 200 != 0
            <==> e.frequency % 25 == 0 && e.frequency % 200 != 0
  {
    CenturySteps(e.frequency, YearStep(e));
  }

  lemma AlignedIsFour(e: Event, y: int)
    requires Usable(e) && e.rtype == Yearly && LeapDay(e) && AlignedYear(e, y)
    ensures y % 4 == 0 && (y - Year(e.start)) % e.frequency == 0
  {
    InYearIsLeap(e, y);
    StepCenturies(e);
    AlignedMod(y, Year(e.start), YearStep(e), 4);
    FourBack(y, Year(e.start));
    StepIsCommon(e.frequency, YearStep(e), y - Year(e.start));
  }

  lemma FourBack(y: int, y0: int)
    requires y0 % 4 == 0
    ensures (y - y0) % 4 == 0 <==> y % 4 == 0
  {
  }

  lemma LeapDayIs29(e: Event, y: int)
    requires LeapDay(e)
    ensures Day(e.start) == 29 && Anniversary(e, y) == DayNumber(y, 2, 29)
  {
    DayNumberOfDate(e.start);
  }

  lemma OverThisYear(e: Event, from: int, y: int)
    requires y >= Year(from) && InYear(e, y) && !EligibleYear(e, from, y)
    ensures y == Year(from)
  {
    if y > Year(from) {
      LaterYear(e, from, y);
    }
  }

  /** Two missing years in a row after a year whose day is over: exactly the null case. */
  lemma SkipsTwiceIff(e: Event, from: int, y: int)
    requires Usable(e) && e.rtype == Yearly && e.start < from && !Ended(e, from)
    requires y == Year(from) && AlignedYear(e, y) && InYear(e, y) && !EligibleYear(e, from, y)
    ensures SkipsTwice(e, from) <==> TwoMissing(e, y)
  {
    LosesDayIff(e, y);
    if LeapDay(e) {
      LeapDayOver(e, from);
    }
  }

  lemma LeapDayOver(e: Event, from: int)
    requires LeapDay(e) && InYear(e, Year(from)) && !EligibleYear(e, from, Year(from))
    ensures DayNumber(Year(from), 2, 29) < from
  {
    LeapDayIs29(e, Year(from));
  }

  predicate TwoMissing(e: Event, y: int) {
    !InYear(e, y + YearStep(e)) && !InYear(e, y + YearStep(e) + YearStep(e))
  }

  lemma LosesDayIff(e: Event, y: int)
    requires Usable(e) && e.rtype == Yearly && AlignedYear(e, y) && InYear(e, y)
    ensures LosesDay(e, y) <==> TwoMissing(e, y)
  {
    InYearIsLeap(e, y);
    InYearIsLeap(e, y + YearStep(e));
    InYearIsLeap(e, y + YearStep(e) + YearStep(e));
    if LeapDay(e) {
      AlignedIsFour(e, y);
      StepCenturies(e);
      TwoCenturies(y, YearStep(e));
    }
  }

  /** The null case starts at an aligned year that has the day. */
  lemma SkipsTwiceStart(e: Event, from: int)
    requires SkipsTwice(e, from)
    ensures AlignedYear(e, Year(from)) && InYear(e, Year(from)) && !EligibleYear(e, from, Year(from))
  {
    LosesDayStart(e, Year(from));
    LeapDayIs29(e, Year(from));
  }

  lemma LosesDayStart(e: Event, y: int)
    requires LosesDay(e, y)
    ensures AlignedYear(e, y) && InYear(e, y)
  {
    GregorianLeap(y);
    InYearIsLeap(e, y);
    AlignedIffFrequency(e, y);
  }

  lemma GregorianLeap(y: int)
    requires y % 400 == 0
    ensures Leap(y)
  {
    Residue(y, 4, 100);
    Centuries(y);
  }

  lemma ThreeCenturies(y: int, step: int, y0: int)
    requires y % 4 == 0 && step % 4 == 0 && Leap(y0)
    requires step % 100 == 0 ==> (y - y0) % 100 == 0
    requires step % 200 == 0 ==> (y - y0) % 200 == 0
    requires step % 400 == 0 ==> (y - y0) % 400 == 0
    requires !Leap(y) && !Leap(y + step)
    ensures Leap(y + step + step) || Leap(y + step + step + step)
  {
    FourStep(y, step);
    FourStep(y + step, step);
    FourStep(y + step + step, step);
    NonLeap(y0);
    NonLeap(y);
    NonLeap(y + step);
    NonLeap(y + step + step);
    NonLeap(y + step + step + step);
    AddResidue(y, step);
    AddResidue(y + step, step);
    AddResidue(y + step + step, step);
    AddResidue(y - y0, y0);
    Centuries(step);
    Centuries(y - y0);
  }

  lemma AlignedMod(y: int, y0: int, step: int, c: int)
    requires step >= 1 && c >= 1 && (y - y0) % step == 0 && step % c == 0
    ensures (y - y0) % c == 0
  {
    var q := Multiple(y - y0, step);
    var p := Multiple(step, c);
    assert y - y0 == c * (p * q) + 0;
    ModOf(p * q, 0, c);
  }

  /** Where the first candidate year already lacks the day, one of the next three has it. */
  lemma SomeYear(e: Event, y: int)
    requires Usable(e) && e.rtype == Yearly && AlignedYear(e, y)
    requires !InYear(e, y) && !InYear(e, y + YearStep(e))
    ensures InYear(e, y + YearStep(e) + YearStep(e))
            || InYear(e, y + YearStep(e) + YearStep(e) + YearStep(e))
  {
    var s := YearStep(e);
    InYearIsLeap(e, y);
    InYearIsLeap(e, y + s);
    InYearIsLeap(e, y + s + s);
    InYearIsLeap(e, y + s + s + s);
    AlignedIsFour(e, y);
    StepCenturies(e);
    if s % 100 == 0 { AlignedMod(y, Year(e.start), s, 100); }
    if s % 200 == 0 { AlignedMod(y, Year(e.start), s, 200); }
    if s % 400 == 0 { AlignedMod(y, Year(e.start), s, 400); }
    ThreeCenturies(y, s, Year(e.start));
  }

  // ---------- the yearly search ----------

  function MakeDate(y: int, m: int, d: int): QDate {
    if ValidDate(y, m, d) then Date(DayNumber(y, m, d)) else NullDate
  }

  predicate AtOrAfter(date: QDate, from: int) { date.Date? && date.day >= from }

  method NextYearly(e: Event, from: int) returns (s: Search)
    requires Usable(e) && e.rtype == Yearly && e.start < from && !Ended(e, from)
    ensures s == Found(NullDate) <==> SkipsTwice(e, from)
    ensures s != Found(NullDate) ==> Answer(e, from, s)
  {
    var iday := Day(e.start);
    var imonth := Month(e.start);
    var iyear := Year(from);
    var freq := e.frequency;
    if imonth == 2 && iday > 28 {
      if freq % 4 != 0 {
        freq := if freq % 2 != 0 then freq * 4 else freq * 2;
      }
    }
    var a := Year(from) - Year(e.start);
    YearMonotone(e.start, from);
    FirstAlignedYear(e, from, UpTo(a, freq));
    if CMod(a, freq) != 0 {
      a := freq - CMod(a, freq);
      iyear := iyear + a;
    }
    SkipsTwiceDecides(e, from, iyear);
    s := FromYear(e, from, imonth, iday, freq, iyear, SkipsTwice(e, from));
  }

  ghost predicate Reached(e: Event, from: int, y: int)
    requires Usable(e) && e.rtype == Yearly
  {
    Year(from) <= y && AlignedYear(e, y) && NoYearBefore(e, from, y)
  }

  method FinishYear(e: Event, date: QDate) returns (s: Search)
    ensures s == if date.Date? then Finish(e, date.day) else Found(NullDate)
  {
    if date.Date? && date.day > e.endDate && e.hasEndDate {
      return NotFound;
    }
    return Found(date);
  }

  lemma YearlyAnswer(e: Event, from: int, y: int)
    requires Usable(e) && e.rtype == Yearly && e.start < from && !Ended(e, from)
    requires Reached(e, from, y) && EligibleYear(e, from, y)
    ensures Answer(e, from, Finish(e, Anniversary(e, y)))
  {
    YearlyLeast(e, from, y);
    FinishLeast(e, from, Anniversary(e, y));
  }

  lemma ReachedStep(e: Event, from: int, y: int)
    requires Usable(e) && e.rtype == Yearly && Reached(e, from, y) && !EligibleYear(e, from, y)
    ensures Reached(e, from, y + YearStep(e)) && Year(from) < y + YearStep(e)
    ensures EligibleYear(e, from, y + YearStep(e)) <==> InYear(e, y + YearStep(e))
  {
    NoYearBeforeStep(e, from, y);
    if InYear(e, y + YearStep(e)) {
      LaterYear(e, from, y + YearStep(e));
    }
  }

  /** What decides whether a search from candidate y ends at a null date. */
  ghost predicate NullCase(e: Event, from: int, y: int, skips: bool)
    requires Usable(e) && e.rtype == Yearly
  {
    (skips ==> InYear(e, y) && !EligibleYear(e, from, y))
    && (InYear(e, y) && !EligibleYear(e, from, y) ==> (skips <==> TwoMissing(e, y)))
  }

  lemma SkipsTwiceDecides(e: Event, from: int, y: int)
    requires Usable(e) && e.rtype == Yearly && e.start < from && !Ended(e, from)
    requires Reached(e, from, y) && y < Year(from) + YearStep(e)
    ensures NullCase(e, from, y, SkipsTwice(e, from))
  {
    NullStart(e, from, y);
    if InYear(e, y) && !EligibleYear(e, from, y) {
      OverThisYear(e, from, y);
      SkipsTwiceIff(e, from, y);
    }
  }

  /** In the null case the first candidate year is that of from, and its day is over. */
  lemma NullStart(e: Event, from: int, y: int)
    requires Usable(e) && e.rtype == Yearly && Reached(e, from, y)
    requires y < Year(from) + YearStep(e)
    ensures SkipsTwice(e, from) ==> InYear(e, y) && !EligibleYear(e, from, y)
  {
    if SkipsTwice(e, from) {
      SkipsTwiceStart(e, from);
      SameClass(YearStep(e), Year(from), y, Year(e.start));
    }
  }

  function FirstTry(e: Event, y: int): int
    requires Usable(e) && e.rtype == Yearly
  {
    if InYear(e, y) then y else y + YearStep(e)
  }

  /** The first year tried from candidate y. */
  lemma FirstTryReached(e: Event, from: int, y: int, skips: bool)
    requires Usable(e) && e.rtype == Yearly && Reached(e, from, y) && NullCase(e, from, y, skips)
    ensures var i := FirstTry(e, y);
            Reached(e, from, i) && (EligibleYear(e, from, i) ==> !skips)
  {
    if !InYear(e, y) {
      ReachedStep(e, from, y);
    }
  }

  lemma SecondTry(e: Event, from: int, y: int, skips: bool)
    requires Usable(e) && e.rtype == Yearly && Reached(e, from, y) && NullCase(e, from, y, skips)
    requires !EligibleYear(e, from, FirstTry(e, y))
    ensures skips <==> TwoMissing(e, FirstTry(e, y))
  {
    if !InYear(e, y) {
      ReachedStep(e, from, y);
      SomeYear(e, y);
    }
  }

  method FromYear(e: Event, from: int, imonth: int, iday: int, freq: int, y: int, ghost skips: bool)
    returns (s: Search)
    requires Usable(e) && e.rtype == Yearly && e.start < from && !Ended(e, from)
    requires imonth == Month(e.start) && iday == Day(e.start) && freq == YearStep(e)
    requires Reached(e, from, y) && NullCase(e, from, y, skips)
    ensures s == Found(NullDate) <==> skips
    ensures s != Found(NullDate) ==> Answer(e, from, s)
  {
    var iyear := y;
    FirstTryReached(e, from, y, skips);
    if !ValidDate(iyear, imonth, iday) {
      iyear := iyear + freq;
    }
    assert iyear == FirstTry(e, y);
    if AtOrAfter(MakeDate(iyear, imonth, iday), from) {
      s := FinishYear(e, MakeDate(iyear, imonth, iday));
      YearlyAnswer(e, from, iyear);
    } else {
      SecondTry(e, from, y, skips);
      s := NextYear(e, from, imonth, iday, freq, iyear);
    }
  }

  /** This year's day does not exist or is over: go on, stepping once more if need be. */
  method NextYear(e: Event, from: int, imonth: int, iday: int, freq: int, y: int) returns (s: Search)
    requires Usable(e) && e.rtype == Yearly && e.start < from && !Ended(e, from)
    requires imonth == Month(e.start) && iday == Day(e.start) && freq == YearStep(e)
    requires Reached(e, from, y) && !EligibleYear(e, from, y)
    ensures s == Found(NullDate) <==> TwoMissing(e, y)
    ensures s != Found(NullDate) ==> Answer(e, from, s)
  {
    var iyear := y + freq;
    ReachedStep(e, from, y);
    if !ValidDate(iyear, imonth, iday) {
      ReachedStep(e, from, iyear);
      iyear := iyear + freq;
    }
    s := FinishYear(e, MakeDate(iyear, imonth, iday));
    if InYear(e, iyear) {
      YearlyAnswer(e, from, iyear);
    }
  }

  /** Events for which the code answers with a date that does not exist, though the day it
      should find does: 29 February of a year that is a multiple of 400 (2000, say), every 25
      years, asked for the day after. */
  lemma NullExample(e: Event, from: int, y: int)
    requires y % 400 == 0
    requires e == Event(DayNumber(y, 2, 29), Yearly, 25, 0, false, 0, [])
    requires from == DayNumber(y, 3, 1)
    ensures SkipsTwice(e, from)
    ensures from < DayNumber(y + 400, 2, 29) && Occurs(e, DayNumber(y + 400, 2, 29))
  {
    ExampleDates(y);
    ExampleSkips(e, from, y);
    ExampleOccurs(e, y, DayNumber(y + 400, 2, 29));
  }

  lemma ExampleSkips(e: Event, from: int, y: int)
    requires y % 400 == 0 && e.rtype == Yearly && e.frequency == 25 && !e.hasEndDate
    requires Year(e.start) == y && Month(e.start) == 2 && Day(e.start) == 29 && e.start < from
    requires Year(from) == y && DayNumber(y, 2, 29) < from
    ensures SkipsTwice(e, from)
  {
    ExampleLoses(e, y);
  }

  lemma ExampleLoses(e: Event, y: int)
    requires y % 400 == 0 && e.rtype == Yearly && e.frequency == 25
    requires Year(e.start) == y && Month(e.start) == 2 && Day(e.start) == 29
    ensures LosesDay(e, y)
  {
    assert y - Year(e.start) == 0;
  }

  lemma ExampleOccurs(e: Event, y: int, n: int)
    requires e.rtype == Yearly && e.frequency == 25 && e.start < n
    requires Year(e.start) == y && Month(e.start) == 2 && Day(e.start) == 29
    requires Year(n) == y + 400 && Month(n) == 2 && Day(n) == 29
    ensures Occurs(e, n)
  {
  }

  lemma LeapDate(y: int)
    requires y % 400 == 0
    ensures var n := DayNumber(y, 2, 29); Year(n) == y && Month(n) == 2 && Day(n) == 29
  {
    GregorianLeap(y);
    DateOfDayNumber(y, 2, 29);
  }

  lemma DayAfter(y: int)
    requires y % 400 == 0
    ensures var n := DayNumber(y, 3, 1); Year(n) == y && n == DayNumber(y, 2, 29) + 1
  {
    GregorianLeap(y);
    DateOfDayNumber(y, 3, 1);
    NextMonth(MonthIndex(y, 2));
    SplitMonth(y, 2);
  }

  lemma ExampleDates(y: int)
    requires y % 400 == 0
    ensures var start, from, n := DayNumber(y, 2, 29), DayNumber(y, 3, 1), DayNumber(y + 400, 2, 29);
            && Year(start) == y && Month(start) == 2 && Day(start) == 29
            && Year(n) == y + 400 && Month(n) == 2 && Day(n) == 29
            && Year(from) == y && start < from < n
  {
    LeapDate(y);
    LeapDate(y + 400);
    DayAfter(y);
    MonthsIncrease(MonthIndex(y, 3), MonthIndex(y + 400, 2));
  }

  /** The search of the program: the least occurrence on or after from, but for the null
      case. */
  method NextOccuranceNoExceptions(e: Event, from: int) returns (s: Search)
    requires Usable(e)
    ensures s == Found(NullDate) <==> SkipsTwice(e, from)
    ensures s != Found(NullDate) ==> Answer(e, from, s)
  {
    if e.hasEndDate && e.endDate < from {
      return NotFound;
    }
    if e.start >= from {
      return Found(Date(e.start));
    }
    match e.rtype {
      case Weekly => s := NextWeekly(e, from);
      case Daily => s := NextDaily(e, from);
      case MonthlyDay => s := NextMonthlyDay(e, from);
      case MonthlyDate => s := NextMonthlyDate(e, from);
      case Yearly => s := NextYearly(e, from);
      case NoRepeat => s := NotFound;
    }
  }

  // ---------- exceptions ----------

  /** The days an event is kept on: occurrences without an exception. */
  predicate Kept(e: Event, n: int)
    requires Usable(e)
  {
    Occurs(e, n) && n !in e.exceptions
  }

  ghost predicate NoneKept(e: Event, from: int, to: int)
    requires Usable(e)
  {
    forall n :: from <= n < to ==> !Kept(e, n)
  }

  ghost predicate KeptAnswer(e: Event, from: int, s: Search)
    requires Usable(e)
  {
    match s
    case NotFound =>
      forall n :: from <= n && Kept(e, n) ==> Ended(e, n) && (n != e.start || Ended(e, from))
    case Found(NullDate) => true
    case Found(Date(n)) =>
      from <= n && Kept(e, n) && NoneKept(e, from, n) && (Ended(e, n) ==> n == e.start && !Ended(e, from))
  }

  /** A search past excepted days alone comes to one that answers with a null date. */
  ghost predicate NullAhead(e: Event, from: int)
    requires Usable(e)
  {
    exists f :: from <= f && SkipsTwice(e, f) && NoneKept(e, from, f)
  }

  ghost predicate NoSkip(e: Event, from: int, to: int) {
    forall f :: from <= f < to ==> !SkipsTwice(e, f)
  }

  /** No search jumps over a null one: from any earlier day the answer is null too, unless
      there is an occurrence in between. */
  lemma SkipReached(e: Event, a: int, f: int) returns (n: int)
    requires SkipsTwice(e, f) && a <= f && !SkipsTwice(e, a)
    ensures a <= n < f && Occurs(e, n) && !Ended(e, n)
  {
    n := DayNumber(Year(f), 2, 29);
    SkipDayOccurs(e, f);
    if n < a {
      YearMonotone(n, a);
      YearMonotone(a, f);
      SkipEarlier(e, a, f);
      assert false;
    }
  }

  lemma SkipEarlier(e: Event, a: int, f: int)
    requires SkipsTwice(e, f) && a <= f && Year(a) == Year(f) && DayNumber(Year(f), 2, 29) < a && e.start < a
    ensures SkipsTwice(e, a)
  {
  }

  /** The start is the first anniversary. */
  lemma AnniversaryFollows(e: Event, y: int)
    requires InYear(e, y) && Year(e.start) <= y
    ensures e.start <= Anniversary(e, y)
  {
    DateOfDayNumber(y, Month(e.start), Day(e.start));
    DayNumberOfDate(e.start);
    if Anniversary(e, y) < e.start {
      YearMonotone(Anniversary(e, y), e.start);
    }
  }

  lemma AnniversaryInYear(e: Event, y: int)
    requires Usable(e) && e.rtype == Yearly && AlignedYear(e, y) && InYear(e, y) && Year(e.start) <= y
    ensures e.start <= Anniversary(e, y) && Occurs(e, Anniversary(e, y))
  {
    AnniversaryFollows(e, y);
    DateOfDayNumber(y, Month(e.start), Day(e.start));
    PatternIsAnniversary(e, Anniversary(e, y));
  }

  /** The last 29 February before a null search is an occurrence. */
  lemma SkipDayOccurs(e: Event, f: int)
    requires SkipsTwice(e, f)
    ensures var n := DayNumber(Year(f), 2, 29); e.start <= n && Occurs(e, n) && Year(n) == Year(f)
  {
    LosesDayStart(e, Year(f));
    LeapDayIs29(e, Year(f));
    YearMonotone(e.start, f);
    AnniversaryInYear(e, Year(f));
    DateOfDayNumber(Year(f), Month(e.start), Day(e.start));
  }

  /** An answer that is not null leaves no null search behind, up to the day found. */
  lemma NoSkipTo(e: Event, from: int, n: int)
    requires Usable(e) && !SkipsTwice(e, from) && Answer(e, from, Found(Date(n)))
    ensures NoSkip(e, from, n + 1)
  {
    forall f | from <= f < n + 1
      ensures !SkipsTwice(e, f)
    {
      if SkipsTwice(e, f) {
        var m := SkipReached(e, from, f);
        assert false;
      }
    }
  }

  lemma NoSkipEver(e: Event, from: int, f: int)
    requires Usable(e) && !SkipsTwice(e, from) && Answer(e, from, NotFound) && from <= f
    ensures !SkipsTwice(e, f)
  {
    if SkipsTwice(e, f) {
      var m := SkipReached(e, from, f);
      assert false;
    }
  }

  ghost function ExceptionsFrom(e: Event, from: int): set<int> {
    set x | x in e.exceptions && from <= x
  }

  lemma FewerExceptions(e: Event, from: int, n: int)
    requires from <= n && n in e.exceptions
    ensures |ExceptionsFrom(e, n + 1)| < |ExceptionsFrom(e, from)|
  {
    assert n in ExceptionsFrom(e, from) && n !in ExceptionsFrom(e, n + 1);
    Smaller(ExceptionsFrom(e, n + 1), ExceptionsFrom(e, from));
  }

  lemma Smaller<T>(a: set<T>, b: set<T>)
    requires a < b
    ensures |a| < |b|
  {
    assert b == a + (b - a);
    assert |b - a| != 0;
  }

  /** The search stands at thisfrom, nothing kept before it. */
  ghost predicate Passed(e: Event, from: int, thisfrom: int)
    requires Usable(e)
  {
    from <= thisfrom && NoneKept(e, from, thisfrom) && NoSkip(e, from, thisfrom)
    && (from < thisfrom ==> e.start < thisfrom)
  }

  lemma NoneLeft(e: Event, from: int, thisfrom: int)
    requires Usable(e) && Passed(e, from, thisfrom) && Answer(e, thisfrom, NotFound)
    requires !SkipsTwice(e, thisfrom)
    ensures KeptAnswer(e, from, NotFound) && !NullAhead(e, from)
  {
    forall n | from <= n && Kept(e, n)
      ensures Ended(e, n) && (n != e.start || Ended(e, from))
    {
      assert thisfrom <= n;
    }
    forall f | from <= f
      ensures !SkipsTwice(e, f)
    {
      if thisfrom <= f {
        NoSkipEver(e, thisfrom, f);
      }
    }
  }

  lemma FoundKept(e: Event, from: int, thisfrom: int, n: int)
    requires Usable(e) && Passed(e, from, thisfrom) && Answer(e, thisfrom, Found(Date(n)))
    requires !SkipsTwice(e, thisfrom) && n !in e.exceptions
    ensures KeptAnswer(e, from, Found(Date(n))) && !NullAhead(e, from)
  {
    forall m | from <= m < n
      ensures !Kept(e, m)
    {
      if thisfrom <= m {
        assert !Occurs(e, m);
      }
    }
    NoSkipTo(e, thisfrom, n);
    forall f | from <= f && SkipsTwice(e, f)
      ensures !NoneKept(e, from, f)
    {
      assert Kept(e, n);
    }
  }

  lemma FoundExcepted(e: Event, from: int, thisfrom: int, n: int)
    requires Usable(e) && Passed(e, from, thisfrom) && Answer(e, thisfrom, Found(Date(n)))
    requires !SkipsTwice(e, thisfrom) && n in e.exceptions
    ensures thisfrom <= n && Passed(e, from, n + 1)
  {
    forall m | from <= m < n + 1
      ensures !Kept(e, m)
    {
      if thisfrom <= m < n {
        assert !Occurs(e, m);
      }
    }
    NoSkipTo(e, thisfrom, n);
  }

  /** The least kept day; a null date exactly when a search past excepted days comes to a
      null one. */
  method NextOccurance(e: Event, from: int) returns (s: Search)
    requires Usable(e)
    ensures KeptAnswer(e, from, s)
    ensures s == Found(NullDate) <==> NullAhead(e, from)
  {
    var thisfrom := from;
    while true
      invariant Passed(e, from, thisfrom)
      decreases |ExceptionsFrom(e, thisfrom)|
    {
      s := NextOccuranceNoExceptions(e, thisfrom);
      if s == NotFound {
        NoneLeft(e, from, thisfrom);
        return;
      }
      if s.date.Date? && s.date.day in e.exceptions {
        FoundExcepted(e, from, thisfrom, s.date.day);
        FewerExceptions(e, thisfrom, s.date.day);
        thisfrom := s.date.day;
        thisfrom := thisfrom + 1;
      } else {
        if s.date.Date? {
          FoundKept(e, from, thisfrom, s.date.day);
        }
        return;
      }
    }
  }

  // ---------- all occurrences in a window ----------

  /** The false end date that cuts a search short at the end of the window. */
  function Clip(e: Event, to: int): Event {
    if !e.hasEndDate || e.endDate > to then e.(hasEndDate := true, endDate := to) else e
  }

  lemma ClipOccurs(e: Event, to: int, n: int)
    requires Usable(e)
    ensures Usable(Clip(e, to)) && Occurs(Clip(e, to), n) == Occurs(e, n)
  {
  }

  lemma ClipSkips(e: Event, to: int, n: int)
    ensures SkipsTwice(Clip(e, to), n) <==> SkipsTwice(e, n) && n <= to
  {
    ClipLoses(e, to, Year(n));
    ClipEnds(e, to, n);
  }

  lemma ClipLoses(e: Event, to: int, y: int)
    ensures LosesDay(Clip(e, to), y) <==> LosesDay(e, y)
  {
  }

  lemma ClipEnds(e: Event, to: int, n: int)
    ensures Ended(Clip(e, to), n) <==> Ended(e, n) || to < n
  {
  }

  lemma ClipKeeps(e: Event, to: int, n: int)
    requires Usable(e)
    ensures Usable(Clip(e, to)) && Kept(Clip(e, to), n) == Kept(e, n)
    ensures SkipsTwice(Clip(e, to), n) <==> SkipsTwice(e, n) && n <= to
  {
    ClipOccurs(e, to, n);
    ClipSkips(e, to, n);
  }

  /** What a window shows of a repeating event: the kept days up to its end date, and its
      start even past the end date as long as that is not before the window. */
  predicate InWindow(e: Event, from: int, to: int, n: int)
    requires Usable(e)
  {
    from <= n <= to && Kept(e, n) && (Ended(e, n) ==> n == e.start && !Ended(e, from))
  }

  ghost predicate Emitted(e: Event, from: int, to: int, itDate: int, days: seq<int>)
    requires Usable(e)
  {
    && (forall i, j :: 0 <= i < j < |days| ==> days[i] < days[j])
    && (forall n :: n in days <==> InWindow(e, from, to, n) && n < itDate)
  }

  lemma Emit(e: Event, from: int, to: int, itDate: int, days: seq<int>, n: int)
    requires Usable(e) && Emitted(e, from, to, itDate, days)
    requires from <= itDate <= n && InWindow(e, from, to, n) && NoneKept(e, itDate, n)
    ensures Emitted(e, from, to, n + 1, days + [n])
  {
    assert forall i :: 0 <= i < |days| ==> days[i] in days;
  }

  /** Nothing left to show from itDate on before end. */
  lemma NoMore(e: Event, from: int, to: int, itDate: int, days: seq<int>, end: int)
    requires Usable(e) && Emitted(e, from, to, itDate, days) && itDate <= end
    requires forall n :: itDate <= n < end ==> !InWindow(e, from, to, n)
    ensures Emitted(e, from, to, end, days)
  {
  }

  /** e with its false end date: the same days, null searches and answers within the window. */
  ghost predicate Clipped(e: Event, to: int, dummy: Event)
    requires Usable(e)
  {
    Usable(dummy) && dummy == Clip(e, to)
    && (forall n :: Kept(dummy, n) == Kept(e, n))
    && (forall n :: SkipsTwice(dummy, n) <==> SkipsTwice(e, n) && n <= to)
  }

  lemma ClipIsClipped(e: Event, to: int)
    requires Usable(e)
    ensures Clipped(e, to, Clip(e, to))
  {
    forall n
      ensures Usable(Clip(e, to)) && Kept(Clip(e, to), n) == Kept(e, n)
      ensures SkipsTwice(Clip(e, to), n) <==> SkipsTwice(e, n) && n <= to
    {
      ClipKeeps(e, to, n);
    }
  }

  /** The window's loop at itDate: all shown before it, and no null search met. */
  ghost predicate Showing(e: Event, from: int, to: int, itDate: int, days: seq<int>)
    requires Usable(e)
  {
    from <= itDate && (from < itDate ==> e.start < itDate <= to + 1)
    && Emitted(e, from, to, itDate, days) && NoSkip(e, from, itDate)
  }

  lemma ShowNext(e: Event, from: int, to: int, itDate: int, days: seq<int>, dummy: Event, n: int)
    requires Usable(e) && Clipped(e, to, dummy) && Showing(e, from, to, itDate, days) && n <= to
    requires KeptAnswer(dummy, itDate, Found(Date(n))) && !NullAhead(dummy, itDate)
    ensures itDate <= n && Showing(e, from, to, n + 1, days + [n])
  {
    ClipEnds(e, to, n);
    ClipEnds(e, to, from);
    Emit(e, from, to, itDate, days, n);
    NoSkipBefore(e, to, dummy, itDate, n + 1);
  }

  /** No null search as long as nothing is kept. */
  lemma NoSkipBefore(e: Event, to: int, dummy: Event, itDate: int, end: int)
    requires Usable(e) && Clipped(e, to, dummy) && !NullAhead(dummy, itDate)
    requires NoneKept(dummy, itDate, end - 1)
    ensures forall f :: itDate <= f < end && f <= to ==> !SkipsTwice(e, f)
  {
    forall f | itDate <= f < end && f <= to
      ensures !SkipsTwice(e, f)
    {
      assert NoneKept(dummy, itDate, f);
    }
  }

  lemma ShowNothing(e: Event, from: int, to: int, itDate: int, days: seq<int>, dummy: Event)
    requires Usable(e) && Clipped(e, to, dummy) && Showing(e, from, to, itDate, days)
    requires KeptAnswer(dummy, itDate, NotFound) && !NullAhead(dummy, itDate)
    ensures ShownAll(e, from, to, days)
  {
    forall n | itDate <= n <= to
      ensures !InWindow(e, from, to, n) && !SkipsTwice(e, n)
    {
      ClipEnds(e, to, n);
      ClipEnds(e, to, itDate);
      if SkipsTwice(e, n) {
        NotFoundNoneKept(dummy, itDate, n);
      }
    }
    NoMore(e, from, to, itDate, days, if itDate > to then itDate else to + 1);
  }

  lemma NotFoundNoneKept(e: Event, from: int, f: int)
    requires Usable(e) && KeptAnswer(e, from, NotFound) && !Ended(e, f)
    ensures NoneKept(e, from, f)
  {
  }

  lemma ShowPast(e: Event, from: int, to: int, itDate: int, days: seq<int>, dummy: Event, due: int)
    requires Usable(e) && Clipped(e, to, dummy) && Showing(e, from, to, itDate, days) && to < due
    requires KeptAnswer(dummy, itDate, Found(Date(due))) && !NullAhead(dummy, itDate)
    ensures ShownAll(e, from, to, days)
  {
    NoSkipBefore(e, to, dummy, itDate, due);
    forall n | itDate <= n <= to
      ensures !InWindow(e, from, to, n)
    {
      assert !Kept(dummy, n);
    }
    NoMore(e, from, to, itDate, days, if itDate > to then itDate else to + 1);
  }

  /** The whole window is shown, and no search from within it is null. */
  ghost predicate ShownAll(e: Event, from: int, to: int, days: seq<int>)
    requires Usable(e)
  {
    (forall n :: n in days <==> InWindow(e, from, to, n)) && NoSkip(e, from, to + 1)
  }

  /** The window is shown only up to the day f of a null search. */
  ghost predicate ShownUpTo(e: Event, from: int, to: int, days: seq<int>, f: int)
    requires Usable(e)
  {
    from <= f <= to && SkipsTwice(e, f) && forall n :: n in days <==> InWindow(e, from, to, n) && n < f
  }

  lemma ShowNull(e: Event, from: int, to: int, itDate: int, days: seq<int>, dummy: Event)
    requires Usable(e) && Clipped(e, to, dummy) && Showing(e, from, to, itDate, days)
    requires NullAhead(dummy, itDate)
    ensures exists f :: ShownUpTo(e, from, to, days, f)
  {
    var f :| itDate <= f && SkipsTwice(dummy, f) && NoneKept(dummy, itDate, f);
    forall n | itDate <= n < f
      ensures !InWindow(e, from, to, n)
    {
      assert !Kept(dummy, n);
    }
    NoMore(e, from, to, itDate, days, f);
    assert ShownUpTo(e, from, to, days, f);
  }

  /** The loop over the occurrences of one event: the days of the window, in order. It meets
      a null date exactly when a search from within the window is null, and has then shown
      the days before that search only. */
  method RepeatsInWindow(e: Event, from: int, to: int) returns (days: seq<int>, nullDate: bool)
    requires Usable(e)
    ensures forall i, j :: 0 <= i < j < |days| ==> days[i] < days[j]
    ensures nullDate <==> exists f :: from <= f <= to && SkipsTwice(e, f)
    ensures !nullDate ==> forall n :: n in days <==> InWindow(e, from, to, n)
    ensures nullDate ==> exists f :: ShownUpTo(e, from, to, days, f)
  {
    var dummy := Clip(e, to);
    ClipIsClipped(e, to);
    days := [];
    var itDate := from;
    while true
      invariant Showing(e, from, to, itDate, days)
      decreases if itDate <= to then to + 1 - itDate else 0
    {
      var s := NextOccurance(dummy, itDate);
      if s == NotFound {
        ShowNothing(e, from, to, itDate, days, dummy);
        return days, false;
      }
      if s.date == NullDate {
        ShowNull(e, from, to, itDate, days, dummy);
        return days, true;
      }
      var due := s.date.day;
      if due > to {
        ShowPast(e, from, to, itDate, days, dummy, due);
        return days, false;
      }
      ShowNext(e, from, to, itDate, days, dummy, due);
      days := days + [due];
      itDate := due + 1;
    }
  }
}
