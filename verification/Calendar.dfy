/** The `day` column: day numbers to civil dates, against the Gregorian calendar counted
    day by day from 1970-01-01. */
module Calendar {
  import opened Prelude
  import opened Text

  datatype Date = Date(y: int, m: int, d: int)

  const MS_PER_DAY := 86_400_000

  // ----- the code -----

  const I32_MIN: int := -0x8000_0000
  const I32_MAX: int := 0x7FFF_FFFF

  /** `i32::try_from(y).unwrap_or(0)`. */
  function ToI32OrZero(y: int): int {
    if I32_MIN <= y <= I32_MAX then y else 0
  }

  /** Days since 1970-01-01 to year, month, day. Division truncates; the era of a negative
      day number is adjusted by hand. */
  function CivilDate(days: int): Date {
    var z := days + 719_468;
    var era := if z >= 0 then TruncDiv(z, 146_097) else TruncDiv(z - 146_096, 146_097);
    var doe := z - era * 146_097;
    var yoe := (doe - doe / 1460 + doe / 36_524 - doe / 146_096) / 365;
    var y := yoe + era * 400;
    var doy := doe - (365 * yoe + yoe / 4 - yoe / 100);
    var mp := (5 * doy + 2) / 153;
    var d := doy - (153 * mp + 2) / 5 + 1;
    var m := if mp < 10 then mp + 3 else mp - 9;
    Date(ToI32OrZero(if m <= 2 then y + 1 else y), m, d)
  }

  // ----- the calendar -----

  predicate IsLeap(y: int) {
    y % 4 == 0 && (y % 100 != 0 || y % 400 == 0)
  }

  function DaysInMonth(y: int, m: int): int {
    if m == 2 then (if IsLeap(y) then 29 else 28)
    else if m == 4 || m == 6 || m == 9 || m == 11 then 30
    else 31
  }

  predicate ValidDate(x: Date) {
    1 <= x.m <= 12 && 1 <= x.d <= DaysInMonth(x.y, x.m)
  }

  function Tomorrow(x: Date): Date {
    if x.d < DaysInMonth(x.y, x.m) then x.(d := x.d + 1)
    else if x.m < 12 then Date(x.y, x.m + 1, 1)
    else Date(x.y + 1, 1, 1)
  }

  const EPOCH: Date := Date(1970, 1, 1)

  // ----- years starting in March -----

  /** A day as era (400 years), March-based year of era, and day of that year. */
  datatype Spot = Spot(era: int, yoe: int, doy: int)

  /** Day of era on which a March-based year begins. */
  function YearStart(yoe: int): int {
    365 * yoe + yoe / 4 - yoe / 100
  }

  /** Its February, and so its length, belongs to the following calendar year. */
  function LastDay(yoe: int): int {
    if IsLeap(yoe + 1) then 365 else 364
  }

  predicate ValidSpot(s: Spot) {
    0 <= s.yoe < 400 && 0 <= s.doy <= LastDay(s.yoe)
  }

  function DayOf(s: Spot): int {
    s.era * 146_097 + YearStart(s.yoe) + s.doy - 719_468
  }

  function MonthIndex(doy: int): int {
    (5 * doy + 2) / 153
  }

  function MonthStart(mp: int): int {
    (153 * mp + 2) / 5
  }

  function DateAt(s: Spot): Date {
    var mp := MonthIndex(s.doy);
    var m := if mp < 10 then mp + 3 else mp - 9;
    var y := s.yoe + s.era * 400;
    Date(if m <= 2 then y + 1 else y, m, s.doy - MonthStart(mp) + 1)
  }

  function NextSpot(s: Spot): Spot {
    if s.doy < LastDay(s.yoe) then s.(doy := s.doy + 1)
    else if s.yoe < 399 then Spot(s.era, s.yoe + 1, 0)
    else Spot(s.era + 1, 0, 0)
  }

  function YearOfEra(doe: int): int {
    (doe - doe / 1460 + doe / 36_524 - doe / 146_096) / 365
  }

  /** Where the code puts a day. */
  function SpotOf(days: int): Spot {
    var z := days + 719_468;
    var era := if z >= 0 then TruncDiv(z, 146_097) else TruncDiv(z - 146_096, 146_097);
    var doe := z - era * 146_097;
    Spot(era, YearOfEra(doe), doe - YearStart(YearOfEra(doe)))
  }

  lemma {:induction false} EraIsFloor(z: int)
    ensures var era := if z >= 0 then TruncDiv(z, 146_097) else TruncDiv(z - 146_096, 146_097);
            era == z / 146_097 && 0 <= z - era * 146_097 < 146_097
  {
    if z < 0 {
      assert TruncDiv(z - 146_096, 146_097) == -((146_096 - z) / 146_097);
    }
  }

  /** The years of an era by century, four-year cycle and remainder. */
  lemma {:induction false} YearStartSplit(c: int, q: int, r: int)
    requires 0 <= c < 4 && 0 <= q < 25 && 0 <= r < 4
    ensures YearStart(100 * c + 4 * q + r) == 36_524 * c + 1461 * q + 365 * r
  {
    var yoe := 100 * c + 4 * q + r;
    assert yoe / 4 == 25 * c + q;
    assert yoe / 100 == c;
  }

  lemma {:induction false} LastDaySplit(c: int, q: int, r: int)
    requires 0 <= c < 4 && 0 <= q < 25 && 0 <= r < 4
    ensures LastDay(100 * c + 4 * q + r) == if r == 3 && (q != 24 || c == 3) then 365 else 364
  {
    var y := 100 * c + 4 * q + r + 1;
    assert y % 4 == (r + 1) % 4;
    assert y % 100 == 0 <==> q == 24 && r == 3;
  }

  /** The year-of-era formula inverts the start of each year. */
  lemma {:induction false} YearOfEraInverts(yoe: int, doy: int)
    requires 0 <= yoe < 400 && 0 <= doy <= LastDay(yoe)
    ensures 0 <= YearStart(yoe) + doy < 146_097
    ensures YearOfEra(YearStart(yoe) + doy) == yoe
  {
    var c := yoe / 100;
    var q := (yoe % 100) / 4;
    var r := yoe % 4;
    assert yoe == 100 * c + 4 * q + r;
    YearStartSplit(c, q, r);
    LastDaySplit(c, q, r);
    YearOfEraSplit(c, q, r, doy);
  }

  lemma {:induction false} YearOfEraSplit(c: int, q: int, r: int, doy: int)
    requires 0 <= c < 4 && 0 <= q < 25 && 0 <= r < 4
    requires 0 <= doy <= (if r == 3 && (q != 24 || c == 3) then 365 else 364)
    ensures YearOfEra(36_524 * c + 1461 * q + 365 * r + doy) == 100 * c + 4 * q + r
  {
    var in100 := 1461 * q + 365 * r + doy;
    var doe := 36_524 * c + in100;
    var last := c == 3 && q == 24 && r == 3 && doy == 365;
    assert doe / 146_096 == if last then 1 else 0;
    assert doe / 36_524 == if last then 4 else c;
    var over := 24 * c + q + 365 * r + doy;
    assert doe == 1460 * (25 * c + q) + over;
    assert doe / 1460 == 25 * c + q + (if over >= 1460 then 1 else 0);
  }

  lemma {:induction false} SpotOfInverts(s: Spot)
    requires ValidSpot(s)
    ensures SpotOf(DayOf(s)) == s
  {
    YearOfEraInverts(s.yoe, s.doy);
    var z := DayOf(s) + 719_468;
    EraIsFloor(z);
    assert z / 146_097 == s.era;
  }

  lemma {:induction false} YearLengths(yoe: int)
    requires 0 <= yoe < 400
    ensures (if yoe < 399 then YearStart(yoe + 1) else 146_097) == YearStart(yoe) + LastDay(yoe) + 1
  {
    var c := yoe / 100;
    var q := (yoe % 100) / 4;
    var r := yoe % 4;
    assert yoe == 100 * c + 4 * q + r;
    YearStartSplit(c, q, r);
    LastDaySplit(c, q, r);
    if r < 3 {
      YearStartSplit(c, q, r + 1);
    } else if q < 24 {
      YearStartSplit(c, q + 1, 0);
    } else if c < 3 {
      YearStartSplit(c + 1, 0, 0);
    }
  }

  lemma {:induction false} NextSpotIsNextDay(s: Spot)
    requires ValidSpot(s)
    ensures ValidSpot(NextSpot(s)) && DayOf(NextSpot(s)) == DayOf(s) + 1
  {
    YearLengths(s.yoe);
  }

  function PrevSpot(s: Spot): Spot {
    if s.doy > 0 then s.(doy := s.doy - 1)
    else if s.yoe > 0 then Spot(s.era, s.yoe - 1, LastDay(s.yoe - 1))
    else Spot(s.era - 1, 399, LastDay(399))
  }

  lemma {:induction false} PrevSpotIsPrevDay(s: Spot)
    requires ValidSpot(s)
    ensures ValidSpot(PrevSpot(s)) && NextSpot(PrevSpot(s)) == s
  {
  }

  const EPOCH_SPOT: Spot := Spot(4, 369, 306)

  /** The code puts the day in range, and on the right day. */
  predicate WellPlaced(days: int) {
    ValidSpot(SpotOf(days)) && DayOf(SpotOf(days)) == days
  }

  lemma {:induction false} PlacedByDay(s: Spot)
    requires ValidSpot(s)
    ensures WellPlaced(DayOf(s))
  {
    SpotOfInverts(s);
  }

  lemma {:induction false} NextWellPlaced(days: int)
    requires WellPlaced(days)
    ensures WellPlaced(days + 1)
  {
    NextSpotIsNextDay(SpotOf(days));
    PlacedByDay(NextSpot(SpotOf(days)));
  }

  lemma {:induction false} PrevWellPlaced(days: int)
    requires WellPlaced(days)
    ensures WellPlaced(days - 1)
  {
    var s := PrevSpot(SpotOf(days));
    PrevSpotIsPrevDay(SpotOf(days));
    NextSpotIsNextDay(s);
    PlacedByDay(s);
  }

  /** Every day number is the day of some valid spot, so the code's spot is always valid. */
  lemma {:induction false} SpotOfValid(days: int)
    ensures ValidSpot(SpotOf(days)) && DayOf(SpotOf(days)) == days
    decreases if days >= 0 then days else -days
  {
    if days == 0 {
      PlacedByDay(EPOCH_SPOT);
    } else if days > 0 {
      SpotOfValid(days - 1);
      NextWellPlaced(days - 1);
    } else {
      SpotOfValid(days + 1);
      PrevWellPlaced(days + 1);
    }
  }

  lemma {:induction false} SpotAdvances(days: int)
    ensures SpotOf(days + 1) == NextSpot(SpotOf(days))
  {
    SpotOfValid(days);
    NextSpotIsNextDay(SpotOf(days));
    SpotOfInverts(NextSpot(SpotOf(days)));
  }

  // ----- months -----

  lemma {:induction false} MonthsOfYear(doy: int)
    requires 0 <= doy <= 365
    ensures var mp := MonthIndex(doy);
            0 <= mp <= 11 && MonthStart(mp) <= doy < MonthStart(mp + 1)
  {
    var mp := MonthIndex(doy);
    assert 153 * mp <= 5 * doy + 2 < 153 * (mp + 1);
  }

  /** Month lengths, March first; January and February belong to the next calendar year. */
  lemma {:induction false} MonthLengths(y: int, mp: int)
    requires 0 <= mp <= 10
    ensures MonthStart(mp + 1) - MonthStart(mp)
            == if mp < 10 then DaysInMonth(y, mp + 3) else DaysInMonth(y + 1, 1)
  {
  }

  lemma {:induction false} Mod4(x: int, k: int)
    ensures (x + 4 * k) % 4 == x % 4
  {
  }

  lemma {:induction false} Mod100(x: int, k: int)
    ensures (x + 100 * k) % 100 == x % 100
  {
  }

  lemma {:induction false} Mod400(x: int, k: int)
    ensures (x + 400 * k) % 400 == x % 400
  {
  }

  lemma {:induction false} LeapByEra(era: int, yoe: int)
    ensures IsLeap(yoe + era * 400) <==> IsLeap(yoe)
  {
    Mod4(yoe, 100 * era);
    Mod100(yoe, 4 * era);
    Mod400(yoe, era);
  }

  lemma {:induction false} FebruaryLength(s: Spot)
    ensures DaysInMonth(s.yoe + s.era * 400 + 1, 2) == LastDay(s.yoe) - MonthStart(11) + 1
  {
    LeapByEra(s.era, s.yoe + 1);
    assert s.yoe + s.era * 400 + 1 == s.yoe + 1 + s.era * 400;
  }

  lemma {:induction false} DateAtValid(s: Spot)
    requires ValidSpot(s)
    ensures ValidDate(DateAt(s))
  {
    MonthsOfYear(s.doy);
    var mp := MonthIndex(s.doy);
    if mp <= 10 {
      MonthLengths(s.yoe + s.era * 400, mp);
    } else {
      FebruaryLength(s);
    }
  }

  lemma {:induction false} SameMonth(doy: int, mp: int)
    requires 0 <= mp <= 11 && MonthStart(mp) <= doy < MonthStart(mp + 1)
    ensures MonthIndex(doy) == mp
  {
    assert 153 * mp <= 5 * doy + 2 < 153 * (mp + 1);
  }

  function CalendarMonth(mp: int): int {
    if mp < 10 then mp + 3 else mp - 9
  }

  /** The date, once the month is known. */
  lemma {:induction false} DateIn(s: Spot, mp: int)
    requires 0 <= mp <= 11 && MonthStart(mp) <= s.doy < MonthStart(mp + 1)
    ensures DateAt(s)
            == Date(s.yoe + s.era * 400 + (if mp < 10 then 0 else 1), CalendarMonth(mp), s.doy - MonthStart(mp) + 1)
  {
    SameMonth(s.doy, mp);
  }

  lemma {:induction false} MonthEnds(s: Spot, mp: int)
    requires ValidSpot(s) && 0 <= mp <= 11
    ensures DaysInMonth(s.yoe + s.era * 400 + (if mp < 10 then 0 else 1), CalendarMonth(mp))
            == (if mp == 11 then LastDay(s.yoe) + 1 else MonthStart(mp + 1)) - MonthStart(mp)
  {
    if mp <= 10 {
      MonthLengths(s.yoe + s.era * 400, mp);
    } else {
      FebruaryLength(s);
    }
  }

  lemma {:induction false} DayTurns(s: Spot, mp: int)
    requires ValidSpot(s) && 0 <= mp <= 11 && MonthStart(mp) <= s.doy && s.doy + 1 < MonthStart(mp + 1)
    requires s.doy < LastDay(s.yoe)
    ensures DateAt(NextSpot(s)) == Tomorrow(DateAt(s))
  {
    DateIn(s, mp);
    MonthEnds(s, mp);
    DateIn(NextSpot(s), mp);
  }

  lemma {:induction false} MonthTurns(s: Spot, mp: int)
    requires ValidSpot(s) && 0 <= mp <= 11 && s.doy < LastDay(s.yoe) && s.doy + 1 == MonthStart(mp + 1)
    ensures mp <= 10
    ensures DateAt(NextSpot(s)) == Date(s.yoe + s.era * 400 + (if mp < 9 then 0 else 1), CalendarMonth(mp + 1), 1)
  {
    assert MonthStart(12) == 367;
    DateIn(NextSpot(s), mp + 1);
  }

  lemma {:induction false} MonthTurnsToNext(s: Spot, mp: int)
    requires ValidSpot(s) && 0 <= mp <= 11 && s.doy < LastDay(s.yoe) && s.doy + 1 == MonthStart(mp + 1)
    requires MonthStart(mp) <= s.doy
    ensures DateAt(NextSpot(s)) == Tomorrow(DateAt(s))
  {
    DateIn(s, mp);
    MonthEnds(s, mp);
    MonthTurns(s, mp);
  }

  lemma {:induction false} YearTurns(s: Spot, mp: int)
    requires ValidSpot(s) && mp == MonthIndex(s.doy) && s.doy == LastDay(s.yoe)
    ensures mp == 11
    ensures DateAt(NextSpot(s)) == Date(s.yoe + s.era * 400 + 1, 3, 1)
  {
    SameMonth(s.doy, 11);
    DateIn(NextSpot(s), 0);
  }

  lemma {:induction false} AfterFebruary(x: Date)
    requires x.m == 2 && x.d == DaysInMonth(x.y, 2)
    ensures Tomorrow(x) == Date(x.y, 3, 1)
  {
  }

  lemma {:induction false} LastOfFebruary(s: Spot)
    requires ValidSpot(s) && s.doy == LastDay(s.yoe)
    ensures var x := DateAt(s); x.y == s.yoe + s.era * 400 + 1 && x.m == 2 && x.d == DaysInMonth(x.y, 2)
  {
    DateIn(s, 11);
    FebruaryLength(s);
  }

  lemma {:induction false} YearTurnsToNext(s: Spot)
    requires ValidSpot(s) && s.doy == LastDay(s.yoe)
    ensures DateAt(NextSpot(s)) == Tomorrow(DateAt(s))
  {
    LastOfFebruary(s);
    AfterFebruary(DateAt(s));
    YearTurns(s, MonthIndex(s.doy));
  }

  lemma {:induction false} DateAtAdvances(s: Spot)
    requires ValidSpot(s)
    ensures DateAt(NextSpot(s)) == Tomorrow(DateAt(s))
  {
    MonthsOfYear(s.doy);
    var mp := MonthIndex(s.doy);
    if s.doy == LastDay(s.yoe) {
      YearTurnsToNext(s);
    } else if s.doy + 1 < MonthStart(mp + 1) {
      DayTurns(s, mp);
    } else {
      MonthTurnsToNext(s, mp);
    }
  }

  // ----- the theorems about civil dates -----

  /** Day numbers an i64 count of milliseconds can reach. */
  predicate Reachable(days: int) {
    -106_751_991_168 <= days <= 106_751_991_168
  }

  lemma {:induction false} EraFits(z: int)
    requires Reachable(z - 719_468)
    ensures var era := if z >= 0 then TruncDiv(z, 146_097) else TruncDiv(z - 146_096, 146_097);
            -731_250 <= era <= 731_250
  {
  }

  lemma {:induction false} YearsFit(days: int)
    requires Reachable(days)
    ensures CivilDate(days) == DateAt(SpotOf(days))
  {
    SpotOfValid(days);
    EraFits(days + 719_468);
  }

  lemma {:induction false} EpochIsDayZero()
    ensures CivilDate(0) == EPOCH
  {
    YearsFit(0);
    assert DayOf(EPOCH_SPOT) == 0;
    SpotOfInverts(EPOCH_SPOT);
    DateIn(EPOCH_SPOT, 10);
  }

  /** Every date is a valid one, and the next day number has the next date. */
  lemma {:induction false} CivilDateCountsDays(days: int)
    requires Reachable(days)
    ensures ValidDate(CivilDate(days))
    ensures Reachable(days + 1) ==> CivilDate(days + 1) == Tomorrow(CivilDate(days))
  {
    SpotOfValid(days);
    var s := SpotOf(days);
    assert CivilDate(days) == DateAt(s) by { YearsFit(days); }
    DateAtValid(s);
    if Reachable(days + 1) {
      assert CivilDate(days + 1) == DateAt(NextSpot(s)) by { YearsFit(days + 1); SpotAdvances(days); }
      DateAtAdvances(s);
    }
  }

  // ----- counting days without the formula -----

  function YearLength(y: int): int {
    if IsLeap(y) then 366 else 365
  }

  /** Days from 1970-01-01 to the first of January, year by year. */
  function DaysToYear(y: int): int
    decreases if y >= 1970 then y - 1970 else 1970 - y
  {
    if y == 1970 then 0
    else if y > 1970 then DaysToYear(y - 1) + YearLength(y - 1)
    else DaysToYear(y + 1) - YearLength(y)
  }

  /** Days from the first of January to the first of a month, month by month. */
  function DaysToMonth(y: int, m: int): int
    decreases m
  {
    if m <= 1 then 0 else DaysToMonth(y, m - 1) + DaysInMonth(y, m - 1)
  }

  function DayNumber(x: Date): int {
    DaysToYear(x.y) + DaysToMonth(x.y, x.m) + x.d - 1
  }

  lemma {:induction false} MonthsFillYear(y: int)
    ensures DaysToMonth(y, 12) + 31 == YearLength(y)
  {
    assert DaysToMonth(y, 2) == 31 && DaysToMonth(y, 3) == 31 + DaysInMonth(y, 2);
    assert DaysToMonth(y, 4) == DaysToMonth(y, 3) + 31 && DaysToMonth(y, 5) == DaysToMonth(y, 4) + 30;
    assert DaysToMonth(y, 6) == DaysToMonth(y, 5) + 31 && DaysToMonth(y, 7) == DaysToMonth(y, 6) + 30;
    assert DaysToMonth(y, 8) == DaysToMonth(y, 7) + 31 && DaysToMonth(y, 9) == DaysToMonth(y, 8) + 31;
    assert DaysToMonth(y, 10) == DaysToMonth(y, 9) + 30 && DaysToMonth(y, 11) == DaysToMonth(y, 10) + 31;
  }

  lemma {:induction false} TomorrowCounts(x: Date)
    requires ValidDate(x)
    ensures ValidDate(Tomorrow(x)) && DayNumber(Tomorrow(x)) == DayNumber(x) + 1
  {
    MonthsFillYear(x.y);
    assert DaysToYear(x.y + 1) == DaysToYear(x.y) + YearLength(x.y);
    assert DaysToMonth(x.y, x.m + 1) == DaysToMonth(x.y, x.m) + DaysInMonth(x.y, x.m);
  }

  lemma {:induction false} DateAtCounts(s: Spot)
    requires ValidSpot(s)
    ensures DayNumber(DateAt(s)) == DayOf(s)
    decreases if DayOf(s) >= 0 then DayOf(s) else -DayOf(s)
  {
    if DayOf(s) == 0 {
      SpotOfInverts(s);
      SpotOfInverts(EPOCH_SPOT);
      assert DateAt(EPOCH_SPOT) == EPOCH;
    } else if DayOf(s) > 0 {
      var p := PrevSpot(s);
      PrevSpotIsPrevDay(s);
      NextSpotIsNextDay(p);
      DateAtCounts(p);
      DateAtAdvances(p);
      DateAtValid(p);
      TomorrowCounts(DateAt(p));
    } else {
      NextSpotIsNextDay(s);
      DateAtCounts(NextSpot(s));
      DateAtAdvances(s);
      DateAtValid(s);
      TomorrowCounts(DateAt(s));
    }
  }

  /** Counting the days up to a date the code produced gives back the day number. */
  lemma {:induction false} CivilDateInverts(days: int)
    requires Reachable(days)
    ensures DayNumber(CivilDate(days)) == days
  {
    YearsFit(days);
    SpotOfValid(days);
    DateAtCounts(SpotOf(days));
  }

  predicate Earlier(a: Date, b: Date) {
    a.y < b.y || (a.y == b.y && (a.m < b.m || (a.m == b.m && a.d < b.d)))
  }

  lemma {:induction false} MonthsOrdered(y: int, m: int, n: int)
    requires 1 <= m < n <= 13
    ensures DaysToMonth(y, m) + DaysInMonth(y, m) <= DaysToMonth(y, n)
    decreases n
  {
    if m + 1 < n {
      MonthsOrdered(y, m, n - 1);
    }
  }

  lemma {:induction false} YearsOrdered(y: int, z: int)
    requires y < z
    ensures DaysToYear(y) + YearLength(y) <= DaysToYear(z)
    decreases z - y
  {
    assert DaysToYear(y + 1) == DaysToYear(y) + YearLength(y);
    if y + 1 < z {
      YearsOrdered(y + 1, z);
    }
  }

  lemma {:induction false} WithinYear(x: Date)
    requires ValidDate(x)
    ensures 0 <= DayNumber(x) - DaysToYear(x.y) < YearLength(x.y)
  {
    MonthsFillYear(x.y);
    if x.m < 12 {
      MonthsOrdered(x.y, x.m, 12);
    }
    if 1 < x.m {
      MonthsOrdered(x.y, 1, x.m);
    }
  }

  lemma {:induction false} EarlierCountsLess(a: Date, b: Date)
    requires ValidDate(a) && ValidDate(b) && Earlier(a, b)
    ensures DayNumber(a) < DayNumber(b)
  {
    if a.y < b.y {
      WithinYear(a);
      WithinYear(b);
      YearsOrdered(a.y, b.y);
    } else if a.m < b.m {
      MonthsOrdered(a.y, a.m, b.m);
    }
  }

  /** Every valid date in range is produced, by its own day number. */
  lemma {:induction false} CivilDateOnto(x: Date)
    requires ValidDate(x) && Reachable(DayNumber(x))
    ensures CivilDate(DayNumber(x)) == x
  {
    var n := DayNumber(x);
    var y := CivilDate(n);
    CivilDateCountsDays(n);
    CivilDateInverts(n);
    if Earlier(x, y) {
      EarlierCountsLess(x, y);
    } else if Earlier(y, x) {
      EarlierCountsLess(y, x);
    }
  }

  lemma {:induction false} LaterDayLaterDate(m: int, n: int)
    requires Reachable(m) && Reachable(n) && m < n
    ensures Earlier(CivilDate(m), CivilDate(n))
  {
    CivilDateCountsDays(m);
    CivilDateCountsDays(n);
    CivilDateInverts(m);
    CivilDateInverts(n);
    var a, b := CivilDate(m), CivilDate(n);
    if !Earlier(a, b) && a != b {
      EarlierCountsLess(b, a);
    }
  }

  // ----- the day key -----

  /** Milliseconds to day number, both divisions truncating. */
  function DayIndex(ts: int): int {
    TruncDiv(TruncDiv(ts, 1000), 86_400)
  }

  function Zeros(n: nat): string {
    if n == 0 then [] else ['0'] + Zeros(n - 1)
  }

  function PadNat(n: nat, width: nat): string {
    var ds := Decimal(n);
    if |ds| < width then Zeros(width - |ds|) + ds else ds
  }

  /** `{:0width}`: a sign takes up one place. */
  function Pad(n: int, width: nat): string {
    if n >= 0 then PadNat(n, width) else "-" + PadNat(-n, if width > 0 then width - 1 else 0)
  }

  function Format(x: Date): string {
    Pad(x.y, 4) + "-" + Pad(x.m, 2) + "-" + Pad(x.d, 2)
  }

  function DayKey(ts: int): string {
    Format(CivilDate(DayIndex(ts)))
  }

  lemma {:induction false} TruncTwice(n: nat)
    ensures n / 1000 / 86_400 == n / MS_PER_DAY
  {
    var q := n / MS_PER_DAY;
    assert q * MS_PER_DAY <= n < (q + 1) * MS_PER_DAY;
  }

  lemma {:induction false} TimestampsReach(ts: int)
    requires IsI64(ts)
    ensures Reachable(DayIndex(ts))
  {
  }

  /** Every i64 timestamp gets a valid date, the one its day number counts up to. */
  lemma {:induction false} EveryTimestampHasADate(ts: int)
    requires IsI64(ts)
    ensures ValidDate(CivilDate(DayIndex(ts))) && DayNumber(CivilDate(DayIndex(ts))) == DayIndex(ts)
  {
    TimestampsReach(ts);
    CivilDateCountsDays(DayIndex(ts));
    CivilDateInverts(DayIndex(ts));
  }

  /** The key names the UTC day of its timestamp exactly when the timestamp is not negative or
      falls on midnight; other times before 1970 get the following day's key. */
  lemma {:induction false} DayIndexIsUtcDay(ts: int)
    ensures DayIndex(ts) == ts / MS_PER_DAY <==> ts >= 0 || ts % MS_PER_DAY == 0
    ensures ts < 0 && ts % MS_PER_DAY != 0 ==> DayIndex(ts) == ts / MS_PER_DAY + 1
  {
    if ts >= 0 {
      TruncTwice(ts);
    } else {
      TruncTwice(-ts);
      assert TruncDiv(ts, 1000) == -((-ts) / 1000);
      assert DayIndex(ts) == -((-ts) / 1000 / 86_400);
    }
  }

  /** The text is this number in decimal, with a sign if it is negative, filled up with zeros to this
      width and no further. */
  ghost predicate Prints(text: string, n: int, width: nat) {
    |text| >= width && (n < 0 ==> text != [] && text[0] == '-') &&
    var digits := if n < 0 then text[1..] else text;
    digits != [] && AllDigits(digits) && DecimalValue(digits) == (if n < 0 then -n else n) &&
    (|text| > width && n != 0 ==> digits[0] != '0')
  }

  lemma {:induction false} LeadingDigit(n: nat)
    ensures n > 0 ==> Decimal(n) != [] && Decimal(n)[0] != '0'
  {
    if n >= 10 {
      LeadingDigit(n / 10);
    }
  }

  lemma {:induction false} ZerosInFront(k: nat, ds: string)
    requires AllDigits(ds)
    ensures |Zeros(k)| == k && AllDigits(Zeros(k) + ds) && DecimalValue(Zeros(k) + ds) == DecimalValue(ds)
  {
    if ds != [] {
      var init := ds[..|ds| - 1];
      assert forall c :: c in init ==> c in ds;
      ZerosInFront(k, init);
      assert (Zeros(k) + ds)[..|Zeros(k) + ds| - 1] == Zeros(k) + init;
      assert Zeros(k) + ds == Zeros(k) + init + [ds[|ds| - 1]];
      assert ds[|ds| - 1] in ds;
    } else {
      AllZeros(k);
      assert Zeros(k) + [] == Zeros(k);
    }
  }

  lemma {:induction false} AllZeros(k: nat)
    ensures |Zeros(k)| == k && forall i :: 0 <= i < k ==> Zeros(k)[i] == '0'
    ensures AllDigits(Zeros(k)) && DecimalValue(Zeros(k)) == 0
  {
    if k > 0 {
      AllZeros(k - 1);
      assert Zeros(k)[..k - 1] == Zeros(k - 1);
    }
  }

  lemma {:induction false} PadPrints(n: int, width: nat)
    requires width >= 1
    ensures Prints(Pad(n, width), n, width)
  {
    var m, w := if n < 0 then -n else n, if n < 0 then width - 1 else width;
    DecimalReadsBack(m);
    LeadingDigit(m);
    if |Decimal(m)| < w {
      ZerosInFront(w - |Decimal(m)|, Decimal(m));
    }
    assert n < 0 ==> Pad(n, width)[1..] == PadNat(m, w);
  }

  /** The key reads back as a date: year, month and day in decimal between two dashes, the year filled to
      four places, month and day to two. */
  lemma {:induction false} DayKeyReadsBack(ts: int) returns (y: string, m: string, d: string)
    requires IsI64(ts)
    ensures var date := CivilDate(DayIndex(ts));
            DayKey(ts) == y + "-" + m + "-" + d && ValidDate(date) &&
            Prints(y, date.y, 4) && Prints(m, date.m, 2) && Prints(d, date.d, 2)
  {
    var date := CivilDate(DayIndex(ts));
    EveryTimestampHasADate(ts);
    y, m, d := Pad(date.y, 4), Pad(date.m, 2), Pad(date.d, 2);
    PadPrints(date.y, 4);
    PadPrints(date.m, 2);
    PadPrints(date.d, 2);
  }

  // ----- keys sort in time order -----

  /** Lexicographic order of texts of equal length. */
  ghost predicate TextLess(a: string, b: string) {
    exists i :: 0 <= i < |a| && i < |b| && a[..i] == b[..i] && a[i] < b[i]
  }

  lemma {:induction false} LessExtends(a: string, b: string, x: string, y: string)
    requires TextLess(a, b)
    ensures TextLess(a + x, b + y)
  {
    var i :| 0 <= i < |a| && i < |b| && a[..i] == b[..i] && a[i] < b[i];
    assert (a + x)[..i] == a[..i] && (b + y)[..i] == b[..i];
    assert (a + x)[i] < (b + y)[i];
  }

  lemma {:induction false} LessAfter(p: string, a: string, b: string)
    requires TextLess(a, b)
    ensures TextLess(p + a, p + b)
  {
    var i :| 0 <= i < |a| && i < |b| && a[..i] == b[..i] && a[i] < b[i];
    var j := |p| + i;
    assert (p + a)[..j] == p + a[..i] && (p + b)[..j] == p + b[..i];
    assert (p + a)[j] < (p + b)[j];
  }

  function Pow10(w: nat): nat {
    if w == 0 then 1 else 10 * Pow10(w - 1)
  }

  function Fixed(n: nat, w: nat): (r: string)
    ensures |r| == w
  {
    if w == 0 then [] else Fixed(n / 10, w - 1) + [DigitChar(n % 10)]
  }

  lemma {:induction false} LastDigitOrder(p: string, i: nat, j: nat)
    requires i < j < 10
    ensures TextLess(p + [DigitChar(i)], p + [DigitChar(j)])
  {
    var a, b := [DigitChar(i)], [DigitChar(j)];
    assert a[..0] == b[..0] && a[0] < b[0];
    LessAfter(p, a, b);
  }

  lemma {:induction false} FixedOrder(m: nat, n: nat, w: nat)
    requires m < n < Pow10(w)
    ensures TextLess(Fixed(m, w), Fixed(n, w))
  {
    if m / 10 < n / 10 {
      FixedOrder(m / 10, n / 10, w - 1);
      LessExtends(Fixed(m / 10, w - 1), Fixed(n / 10, w - 1), [DigitChar(m % 10)], [DigitChar(n % 10)]);
    } else {
      LastDigitOrder(Fixed(m / 10, w - 1), m % 10, n % 10);
    }
  }

  lemma {:induction false} FixedZero(w: nat)
    ensures Fixed(0, w) == Zeros(w)
  {
    if w > 0 {
      FixedZero(w - 1);
      ZerosSnoc(w - 1);
    }
  }

  lemma {:induction false} ZerosSnoc(n: nat)
    ensures Zeros(n) + ['0'] == Zeros(n + 1)
  {
    if n == 0 {
    } else {
      ZerosSnoc(n - 1);
      assert Zeros(n) + ['0'] == ['0'] + (Zeros(n - 1) + ['0']);
    }
  }

  lemma {:induction false} PadDigit(n: nat, w: nat)
    requires n < 10 && w > 0
    ensures PadNat(n, w) == Fixed(n, w)
  {
    FixedZero(w - 1);
    assert Decimal(n) == [DigitChar(n)];
    assert Zeros(0) + [DigitChar(n)] == [DigitChar(n)];
  }

  lemma {:induction false} PadStep(n: nat, w: nat)
    requires n >= 10 && w > 0
    ensures PadNat(n, w) == PadNat(n / 10, w - 1) + [DigitChar(n % 10)]
  {
    var ds, c := Decimal(n / 10), [DigitChar(n % 10)];
    assert Decimal(n) == ds + c && |ds + c| == |ds| + 1;
    if |ds| < w - 1 {
      assert Zeros(w - 1 - |ds|) + ds + c == Zeros(w - 1 - |ds|) + (ds + c);
    }
  }

  lemma {:induction false} PadIsFixed(n: nat, w: nat)
    requires n < Pow10(w) && w > 0
    ensures PadNat(n, w) == Fixed(n, w)
  {
    if n < 10 {
      PadDigit(n, w);
    } else {
      PadIsFixed(n / 10, w - 1);
      PadStep(n, w);
    }
  }

  /** A date whose year has at most four digits prints in fixed width. */
  lemma {:induction false} FormatFixed(x: Date)
    requires ValidDate(x) && 0 <= x.y <= 9999
    ensures Format(x) == Fixed(x.y, 4) + ("-" + (Fixed(x.m, 2) + ("-" + Fixed(x.d, 2))))
  {
    assert Pow10(1) == 10 && Pow10(2) == 100 && Pow10(3) == 1000 && Pow10(4) == 10_000;
    PadIsFixed(x.y, 4);
    PadIsFixed(x.m, 2);
    PadIsFixed(x.d, 2);
  }

  lemma {:induction false} FormatOrder(a: Date, b: Date)
    requires ValidDate(a) && ValidDate(b) && 0 <= a.y <= 9999 && 0 <= b.y <= 9999 && Earlier(a, b)
    ensures TextLess(Format(a), Format(b))
  {
    assert Pow10(1) == 10 && Pow10(2) == 100 && Pow10(3) == 1000 && Pow10(4) == 10_000;
    FormatFixed(a);
    FormatFixed(b);
    var da, db := "-" + Fixed(a.d, 2), "-" + Fixed(b.d, 2);
    var ma, mb := "-" + (Fixed(a.m, 2) + da), "-" + (Fixed(b.m, 2) + db);
    if a.y < b.y {
      FixedOrder(a.y, b.y, 4);
      LessExtends(Fixed(a.y, 4), Fixed(b.y, 4), ma, mb);
    } else {
      if a.m < b.m {
        FixedOrder(a.m, b.m, 2);
        LessExtends(Fixed(a.m, 2), Fixed(b.m, 2), da, db);
      } else {
        FixedOrder(a.d, b.d, 2);
        LessAfter("-", Fixed(a.d, 2), Fixed(b.d, 2));
        LessAfter(Fixed(a.m, 2), da, db);
      }
      LessAfter("-", Fixed(a.m, 2) + da, Fixed(b.m, 2) + db);
      LessAfter(Fixed(a.y, 4), ma, mb);
    }
  }

  /** First millisecond of the year 10000. */
  const END_OF_9999: int := 253_402_300_800_000

  lemma {:induction false} YearsInRange(ts: int)
    requires 0 <= ts < END_OF_9999
    ensures Reachable(DayIndex(ts)) && ValidDate(CivilDate(DayIndex(ts)))
    ensures 1970 <= CivilDate(DayIndex(ts)).y <= 9999
  {
    DayIndexIsUtcDay(ts);
    var n := DayIndex(ts);
    CivilDateCountsDays(n);
    CivilDateInverts(n);
    var x := CivilDate(n);
    WithinYear(x);
    assert 0 <= n < 2_932_897;
    YearBounds();
    if x.y < 1970 {
      YearsOrdered(x.y, 1970);
    } else if x.y > 9999 {
      if x.y > 10_000 { YearsOrdered(10_000, x.y); }
    }
  }

  lemma {:induction false} YearBounds()
    ensures DaysToYear(1970) == 0 && DaysToYear(10_000) == 2_932_897
  {
    ClosedForm(10_000);
  }

  /** Leap years up to and including y, counted from year 0. */
  function LeapsThrough(y: int): int {
    y / 4 - y / 100 + y / 400
  }

  lemma {:induction false} ClosedForm(y: int)
    requires y >= 1970
    ensures DaysToYear(y) == 365 * (y - 1970) + LeapsThrough(y - 1) - LeapsThrough(1969)
    decreases y
  {
    if y > 1970 {
      ClosedForm(y - 1);
      LeapStep(y - 1);
    }
  }

  lemma {:induction false} QuarterStep(y: int)
    ensures y / 4 == (y - 1) / 4 + (if y % 4 == 0 then 1 else 0)
  {
  }

  lemma {:induction false} CenturyStep(y: int)
    ensures y / 100 == (y - 1) / 100 + (if y % 100 == 0 then 1 else 0)
  {
  }

  lemma {:induction false} EraStep(y: int)
    ensures y / 400 == (y - 1) / 400 + (if y % 400 == 0 then 1 else 0)
  {
  }

  lemma {:induction false} CenturiesAreQuarters(y: int)
    ensures y % 100 == 0 ==> y % 4 == 0
  {
    Mod4(0, 25 * (y / 100));
  }

  lemma {:induction false} ErasAreCenturies(y: int)
    ensures y % 400 == 0 ==> y % 100 == 0
  {
    Mod100(0, 4 * (y / 400));
  }

  lemma {:induction false} LeapStep(y: int)
    ensures LeapsThrough(y) == LeapsThrough(y - 1) + (if IsLeap(y) then 1 else 0)
  {
    QuarterStep(y);
    CenturyStep(y);
    EraStep(y);
    CenturiesAreQuarters(y);
    ErasAreCenturies(y);
  }

  /** From 1970 through year 9999 the keys sort in time order: same day, same key; later day,
      greater key. */
  lemma {:induction false} DayKeysSort(s: int, t: int)
    requires 0 <= s <= t < END_OF_9999
    ensures s / MS_PER_DAY == t / MS_PER_DAY ==> DayKey(s) == DayKey(t)
    ensures s / MS_PER_DAY < t / MS_PER_DAY ==> TextLess(DayKey(s), DayKey(t))
  {
    DayIndexIsUtcDay(s);
    DayIndexIsUtcDay(t);
    if DayIndex(s) < DayIndex(t) {
      YearsInRange(s);
      YearsInRange(t);
      LaterDayLaterDate(DayIndex(s), DayIndex(t));
      FormatOrder(CivilDate(DayIndex(s)), CivilDate(DayIndex(t)));
    }
  }
}
