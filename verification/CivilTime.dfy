/** Unix time and civil dates: Hinnant's day arithmetic against the calendar. */
module CivilTime {
  import opened Bytes

  /** Division as the source's language does it: towards zero. */
  function Quot(a: int, b: int): int
    requires b > 0
  {
    if a >= 0 then a / b else -(-a / b)
  }

  // The shifted truncations are floors.
  lemma EraFloor(y: int, z: int)
    ensures Quot(if y >= 0 then y else y - 399, 400) == y / 400
    ensures Quot(if z >= 0 then z else z - 146096, 146097) == z / 146097
  {
  }

  datatype Date = Date(y: int, m: int, d: int)

  /* ---- the source's two conversions ---- */

  function DaysFromCivil(c: Date): int {
    var y := if c.m <= 2 then c.y - 1 else c.y;
    var era := Quot(if y >= 0 then y else y - 399, 400);
    var yoe := y - era * 400;
    var mp := (c.m + 9) % 12;
    var doy := MonthStart(mp) + c.d - 1;
    var doe := YearStart(yoe) + doy;
    era * 146097 + doe - 719468
  }

  /** Year of an era, which starts on a 1 March, by day. */
  function YearOfEra(doe: int): int {
    (doe - doe / 1460 + doe / 36524 - doe / 146096) / 365
  }

  /** Days before year `yoe` of an era. */
  function YearStart(yoe: int): int {
    365 * yoe + yoe / 4 - yoe / 100
  }

  /** Days before month `mp` of a year that starts in March. */
  function MonthStart(mp: int): int {
    (153 * mp + 2) / 5
  }

  function MonthOfDay(doy: int): int {
    (5 * doy + 2) / 153
  }

  function CivilFromDays(day: int): Date {
    var z := day + 719468;
    var era := Quot(if z >= 0 then z else z - 146096, 146097);
    EraDate(era, z - era * 146097)
  }

  function EraDate(era: int, doe: int): Date {
    var yoe := YearOfEra(doe);
    var y := yoe + era * 400;
    var doy := doe - YearStart(yoe);
    var mp := MonthOfDay(doy);
    var d := doy - MonthStart(mp) + 1;
    var m := if mp < 10 then mp + 3 else mp - 9;
    Date(if m <= 2 then y + 1 else y, m, d)
  }

  /* ---- the calendar ---- */

  predicate Leap(y: int) {
    y % 4 == 0 && (y % 100 != 0 || y % 400 == 0)
  }

  function MonthLen(y: int, m: int): int {
    if m == 2 then (if Leap(y) then 29 else 28)
    else if m == 4 || m == 6 || m == 9 || m == 11 then 30 else 31
  }

  predicate Valid(c: Date) {
    1 <= c.m <= 12 && 1 <= c.d <= MonthLen(c.y, c.m)
  }

  function NextDay(c: Date): Date {
    if c.d < MonthLen(c.y, c.m) then c.(d := c.d + 1)
    else if c.m < 12 then Date(c.y, c.m + 1, 1)
    else Date(c.y + 1, 1, 1)
  }

  /* ---- inside one era ---- */

  /** Year 100a + 4b + c of an era. */
  predicate YearParts(yoe: nat, a: nat, b: nat, c: nat) {
    a < 4 && b < 25 && c < 4 && yoe == 100 * a + 4 * b + c
  }

  /** The length of a year that starts in March: the leap day is its last. */
  function YearLen(a: nat, b: nat, c: nat): nat {
    if c == 3 && (b != 24 || a == 3) then 366 else 365
  }

  lemma YearStartParts(yoe: nat, a: nat, b: nat, c: nat)
    requires YearParts(yoe, a, b, c)
    ensures YearStart(yoe) == 36524 * a + 1461 * b + 365 * c
  {
    assert yoe / 4 == 25 * a + b && yoe / 100 == a;
  }

  lemma YearFormula(doe: nat, a: nat, b: nat, c: nat, doy: nat)
    requires a < 4 && b < 25 && c < 4 && doy < YearLen(a, b, c)
    requires doe == 36524 * a + 1461 * b + 365 * c + doy
    ensures doe < 146097 && YearOfEra(doe) == 100 * a + 4 * b + c
  {
    var q := 24 * a + b + 365 * c + doy;
    var e := if q >= 1460 then 1 else 0;
    assert doe == 1460 * (25 * a + b) + q;
    assert doe / 1460 == 25 * a + b + e;
    assert doe / 36524 - doe / 146096 == a;
    assert doe - doe / 1460 + doe / 36524 - doe / 146096 == 365 * (100 * a + 4 * b + c) + (doy - e);
  }

  lemma DayParts(doe: nat) returns (a: nat, b: nat, c: nat, doy: nat)
    requires doe < 146097
    ensures a < 4 && b < 25 && c < 4 && doy < YearLen(a, b, c)
    ensures doe == 36524 * a + 1461 * b + 365 * c + doy
  {
    a := if doe / 36524 == 4 then 3 else doe / 36524;
    var r := doe - 36524 * a;
    b := r / 1461;
    var t := r - 1461 * b;
    c := if t / 365 == 4 then 3 else t / 365;
    doy := t - 365 * c;
  }

  lemma YearToParts(yoe: nat) returns (a: nat, b: nat, c: nat)
    requires yoe < 400
    ensures YearParts(yoe, a, b, c)
  {
    a, b, c := yoe / 100, yoe % 100 / 4, yoe % 4;
  }

  /** Length of the month number `mp` counted from March; the last is February. */
  function MarchMonthLen(mp: int, yearLen: int): int {
    if mp == 11 then yearLen - 337 else if mp in {1, 3, 6, 8} then 30 else 31
  }

  lemma MonthFormula(mp: nat, d: nat, yearLen: nat)
    requires mp < 12 && 1 <= d <= MarchMonthLen(mp, yearLen) && 365 <= yearLen <= 366
    ensures MonthOfDay(MonthStart(mp) + d - 1) == mp
    ensures MonthStart(mp) + d - 1 < yearLen
  {
  }

  lemma MonthParts(doy: nat, yearLen: nat)
    requires doy < yearLen && 365 <= yearLen <= 366
    ensures var mp := MonthOfDay(doy);
            mp < 12 && 1 <= doy - MonthStart(mp) + 1 <= MarchMonthLen(mp, yearLen)
  {
  }

  /* ---- all days and all dates ---- */

  /** The March-based year and month of a date. */
  function MarchYear(c: Date): int {
    if c.m <= 2 then c.y - 1 else c.y
  }

  function MarchMonth(c: Date): int {
    (c.m + 9) % 12
  }

  lemma Mod4(k: int, c: nat)
    requires c < 4
    ensures (4 * k + c + 1) % 4 == (c + 1) % 4
  {
  }

  lemma Mod100(k: int, r: nat)
    requires r < 100
    ensures (100 * k + r + 1) % 100 == (r + 1) % 100
  {
  }

  lemma Mod400(k: int, r: nat)
    requires r < 400
    ensures (400 * k + r + 1) % 400 == (r + 1) % 400
  {
  }

  lemma LeapRemainders(a: nat, b: nat, c: nat)
    requires a < 4 && b < 25 && c < 4
    ensures (c + 1) % 4 == 0 && ((4 * b + c + 1) % 100 != 0 || (100 * a + 4 * b + c + 1) % 400 == 0)
            <==> YearLen(a, b, c) == 366
  {
  }

  lemma LeapParts(y: int, a: nat, b: nat, c: nat)
    requires YearParts(y % 400, a, b, c)
    ensures Leap(y + 1) <==> YearLen(a, b, c) == 366
  {
    var e := y / 400;
    assert y == 400 * e + 100 * a + 4 * b + c;
    assert (y + 1) % 4 == (c + 1) % 4 by {
      Mod4(100 * e + 25 * a + b, c);
    }
    assert (y + 1) % 100 == (4 * b + c + 1) % 100 by {
      Mod100(4 * e + a, 4 * b + c);
    }
    assert (y + 1) % 400 == (100 * a + 4 * b + c + 1) % 400 by {
      Mod400(e, 100 * a + 4 * b + c);
    }
    LeapRemainders(a, b, c);
  }

  // A date in the March calendar: month lengths agree.
  lemma MarchDate(t: Date, a: nat, b: nat, c: nat)
    requires YearParts(MarchYear(t) % 400, a, b, c) && 1 <= t.m <= 12
    ensures MonthLen(t.y, t.m) == MarchMonthLen(MarchMonth(t), YearLen(a, b, c))
  {
    if t.m == 2 {
      LeapParts(t.y - 1, a, b, c);
    }
  }

  /** Days from the epoch to the start of a March year. */
  function MarchYearStart(y: int): int {
    y / 400 * 146097 + YearStart(y % 400) - 719468
  }

  lemma DaysByEra(t: Date)
    ensures DaysFromCivil(t) == MarchYearStart(MarchYear(t)) + MonthStart(MarchMonth(t)) + t.d - 1
  {
    EraFloor(MarchYear(t), 0);
  }

  function FromMarch(y: int, mp: int, d: int): Date {
    Date(if mp < 10 then y else y + 1, if mp < 10 then mp + 3 else mp - 9, d)
  }

  lemma MarchRoundTrip(t: Date)
    requires 1 <= t.m <= 12
    ensures t == FromMarch(MarchYear(t), MarchMonth(t), t.d) && 0 <= MarchMonth(t) < 12
  {
  }

  lemma EraOf(x: int, era: int, doe: nat)
    requires doe < 146097 && x == era * 146097 + doe
    ensures x / 146097 == era
  {
  }

  lemma CivilByEra(z: int, era: int, doe: nat)
    requires doe < 146097 && z + 719468 == era * 146097 + doe
    ensures CivilFromDays(z) == EraDate(era, doe)
  {
    EraFloor(0, z + 719468);
    EraOf(z + 719468, era, doe);
  }

  lemma EraDateByParts(era: int, doe: int, yoe: int, doy: int, mp: int, d: int)
    requires YearOfEra(doe) == yoe && doe - YearStart(yoe) == doy
    requires 0 <= mp < 12 && MonthOfDay(doy) == mp && doy - MonthStart(mp) + 1 == d
    ensures EraDate(era, doe) == FromMarch(400 * era + yoe, mp, d)
  {
  }

  /* ---- places: era, century, olympiad, year, month from March, day ---- */

  datatype Place = Place(era: int, a: nat, b: nat, c: nat, mp: nat, d: nat)

  predicate Ok(p: Place) {
    p.a < 4 && p.b < 25 && p.c < 4 && p.mp < 12 && 1 <= p.d <= MarchMonthLen(p.mp, YearLen(p.a, p.b, p.c))
  }

  function DayAt(p: Place): int {
    p.era * 146097 + (36524 * p.a + 1461 * p.b + 365 * p.c) + MonthStart(p.mp) + p.d - 1 - 719468
  }

  function YearAt(p: Place): int {
    400 * p.era + (100 * p.a + 4 * p.b + p.c)
  }

  function DateAt(p: Place): Date {
    FromMarch(YearAt(p), p.mp, p.d)
  }

  lemma PlaceOfDay(z: int) returns (p: Place)
    ensures Ok(p) && DayAt(p) == z
  {
    var era, doe := (z + 719468) / 146097, (z + 719468) % 146097;
    var a, b, c, doy := DayParts(doe);
    MonthParts(doy, YearLen(a, b, c));
    var mp := MonthOfDay(doy);
    p := Place(era, a, b, c, mp, doy - MonthStart(mp) + 1);
  }

  lemma PlaceOfDate(t: Date) returns (p: Place)
    requires Valid(t)
    ensures Ok(p) && DateAt(p) == t
  {
    var y := MarchYear(t);
    var a, b, c := YearToParts(y % 400);
    MarchDate(t, a, b, c);
    MarchRoundTrip(t);
    p := Place(y / 400, a, b, c, MarchMonth(t), t.d);
  }

  lemma FromMarchInverse(y: int, mp: nat, d: int)
    requires mp < 12
    ensures MarchYear(FromMarch(y, mp, d)) == y && MarchMonth(FromMarch(y, mp, d)) == mp
    ensures FromMarch(y, mp, d).d == d && 1 <= FromMarch(y, mp, d).m <= 12
  {
  }

  lemma EraYear(era: int, yoe: nat)
    requires yoe < 400
    ensures (400 * era + yoe) / 400 == era && (400 * era + yoe) % 400 == yoe
  {
  }

  lemma MonthLenAt(p: Place)
    requires Ok(p)
    ensures MonthLen(DateAt(p).y, DateAt(p).m) == MarchMonthLen(p.mp, YearLen(p.a, p.b, p.c))
    ensures Valid(DateAt(p))
  {
    FromMarchInverse(YearAt(p), p.mp, p.d);
    EraYear(p.era, 100 * p.a + 4 * p.b + p.c);
    MarchDate(DateAt(p), p.a, p.b, p.c);
  }

  /** `civil_from_days` finds the date of a place from its day number. */
  lemma CivilAt(p: Place)
    requires Ok(p)
    ensures CivilFromDays(DayAt(p)) == DateAt(p)
  {
    var yoe, doy := 100 * p.a + 4 * p.b + p.c, MonthStart(p.mp) + p.d - 1;
    MonthFormula(p.mp, p.d, YearLen(p.a, p.b, p.c));
    var doe := 36524 * p.a + 1461 * p.b + 365 * p.c + doy;
    YearFormula(doe, p.a, p.b, p.c, doy);
    YearStartParts(yoe, p.a, p.b, p.c);
    CivilByEra(DayAt(p), p.era, doe);
    EraDateByParts(p.era, doe, yoe, doy, p.mp, p.d);
  }

  /** `days_from_civil` finds the day number of a place from its date. */
  lemma DaysAt(p: Place)
    requires Ok(p)
    ensures DaysFromCivil(DateAt(p)) == DayAt(p)
  {
    var yoe := 100 * p.a + 4 * p.b + p.c;
    FromMarchInverse(YearAt(p), p.mp, p.d);
    EraYear(p.era, yoe);
    YearStartParts(yoe, p.a, p.b, p.c);
    DaysByEra(DateAt(p));
  }

  /** Every valid date is the date of its day number. */
  lemma DateOfDays(t: Date)
    requires Valid(t)
    ensures CivilFromDays(DaysFromCivil(t)) == t
  {
    var p := PlaceOfDate(t);
    CivilAt(p);
    DaysAt(p);
  }

  /** Every day number has a valid date, and is the day number of that date. */
  lemma DaysOfDate(z: int)
    ensures Valid(CivilFromDays(z)) && DaysFromCivil(CivilFromDays(z)) == z
  {
    var p := PlaceOfDay(z);
    CivilAt(p);
    DaysAt(p);
    MonthLenAt(p);
  }

  /* ---- the calendar's own order ---- */

  lemma NextMonthStart(mp: nat, yearLen: int)
    requires mp < 12
    ensures MonthStart(mp) + MarchMonthLen(mp, yearLen) == if mp == 11 then yearLen else MonthStart(mp + 1)
  {
  }

  /** The day after, month by month, in the March calendar. */
  lemma NextOfMarch(y: int, mp: nat, d: nat, len: int)
    requires mp < 12 && len == MonthLen(FromMarch(y, mp, d).y, FromMarch(y, mp, d).m) && 1 <= d <= len
    ensures NextDay(FromMarch(y, mp, d)) ==
            if d < len then FromMarch(y, mp, d + 1)
            else if mp < 11 then FromMarch(y, mp + 1, 1)
            else FromMarch(y + 1, 0, 1)
  {
  }

  lemma NextYearPlace(p: Place) returns (n: Place)
    requires p.a < 4 && p.b < 25 && p.c < 4
    ensures Ok(n) && n.mp == 0 && n.d == 1 && YearAt(n) == YearAt(p) + 1
    ensures n.era * 146097 + (36524 * n.a + 1461 * n.b + 365 * n.c)
            == p.era * 146097 + (36524 * p.a + 1461 * p.b + 365 * p.c) + YearLen(p.a, p.b, p.c)
  {
    if p.c < 3 {
      n := Place(p.era, p.a, p.b, p.c + 1, 0, 1);
    } else if p.b < 24 {
      n := Place(p.era, p.a, p.b + 1, 0, 0, 1);
    } else if p.a < 3 {
      n := Place(p.era, p.a + 1, 0, 0, 0, 1);
    } else {
      n := Place(p.era + 1, 0, 0, 0, 0, 1);
    }
  }

  /** Where the day after a day is placed. */
  lemma NextPlace(p: Place) returns (n: Place)
    requires Ok(p)
    ensures Ok(n) && DayAt(n) == DayAt(p) + 1 && DateAt(n) == NextDay(DateAt(p))
  {
    var len := MarchMonthLen(p.mp, YearLen(p.a, p.b, p.c));
    MonthLenAt(p);
    NextOfMarch(YearAt(p), p.mp, p.d, len);
    NextMonthStart(p.mp, YearLen(p.a, p.b, p.c));
    if p.d < len {
      n := p.(d := p.d + 1);
    } else if p.mp < 11 {
      n := p.(mp := p.mp + 1, d := 1);
    } else {
      n := NextYearPlace(p);
    }
  }

  /** The date of the next day number is the next day of the calendar; with the
      epoch this fixes the conversion for every day. */
  lemma CivilOfNextDay(z: int)
    ensures CivilFromDays(z + 1) == NextDay(CivilFromDays(z))
  {
    var p := PlaceOfDay(z);
    var n := NextPlace(p);
    CivilOn(z, p);
    CivilOn(z + 1, n);
  }

  lemma CivilOn(z: int, p: Place)
    requires Ok(p) && DayAt(p) == z
    ensures CivilFromDays(z) == DateAt(p)
  {
    CivilAt(p);
  }

  lemma EpochPlace() returns (p: Place)
    ensures Ok(p) && DayAt(p) == 0 && DateAt(p) == Date(1970, 1, 1)
  {
    p := Place(4, 3, 17, 1, 10, 1);
  }

  lemma Epoch()
    ensures CivilFromDays(0) == Date(1970, 1, 1)
  {
    var p := EpochPlace();
    CivilAt(p);
  }

  /* ---- Unix time ---- */

  datatype Civil = Civil(year: U16, month: Byte, day: Byte, hour: Byte, min: Byte, sec: Byte)

  predicate ValidTime(c: Civil) {
    Valid(Date(c.year, c.month, c.day)) && c.hour < 24 && c.min < 60 && c.sec < 60
  }

  function DateOf(c: Civil): Date {
    Date(c.year, c.month, c.day)
  }

  /** Seconds of a day number and a time of day, before the cast to 32 bits. */
  function Stamp(days: int, c: Civil): int {
    var h: int, m: int, s: int := c.hour, c.min, c.sec;
    days * 86400 + h * 3600 + m * 60 + s
  }

  function Seconds(c: Civil): int {
    Stamp(DaysFromCivil(DateOf(c)), c)
  }

  function CivilToUnix(c: Civil): U32 {
    Wrap32(Seconds(c))
  }

  function Cast16(n: int): U16 {
    n % 0x1_0000
  }

  function Cast8(n: int): Byte {
    n % 256
  }

  function CivilOf(t: Date, rem: nat): Civil {
    Civil(Cast16(t.y), Cast8(t.m), Cast8(t.d), Cast8(rem / 3600), Cast8(rem % 3600 / 60), Cast8(rem % 60))
  }

  function UnixToCivil(ts: U32): Civil {
    CivilOf(CivilFromDays(ts / 86400), ts % 86400)
  }

  lemma SplitDay(rem: nat)
    requires rem < 86400
    ensures rem / 3600 < 24 && rem % 3600 / 60 < 60 && rem % 60 < 60
    ensures rem / 3600 * 3600 + rem % 3600 / 60 * 60 + rem % 60 == rem
  {
    var h, r := rem / 3600, rem % 3600;
    assert rem == 3600 * h + r && r % 60 == rem % 60;
  }

  lemma JoinDay(h: nat, m: nat, s: nat)
    requires h < 24 && m < 60 && s < 60
    ensures var rem := h * 3600 + m * 60 + s;
            rem < 86400 && rem / 3600 == h && rem % 3600 / 60 == m && rem % 60 == s
  {
    var rem := h * 3600 + m * 60 + s;
    assert rem / 3600 == h && rem % 3600 == m * 60 + s;
  }

  lemma DateRange(z: int)
    requires 0 <= z < 49711
    ensures var t := CivilFromDays(z); 1970 <= t.y <= 2106 && 1 <= t.m <= 12 && 1 <= t.d <= 31 && Valid(t)
  {
    var p := PlaceOfDay(z);
    CivilAt(p);
    MonthLenAt(p);
    RangeAt(p);
  }

  lemma RangeAt(p: Place)
    requires Ok(p) && 0 <= DayAt(p) < 49711
    ensures 1970 <= DateAt(p).y <= 2106
  {
    assert p.era == 4 || p.era == 5;
  }

  lemma CivilFields(t: Date, rem: nat, c: Civil, days: int)
    requires c == CivilOf(t, rem) && rem < 86400
    requires 1970 <= t.y <= 2106 && 1 <= t.m <= 12 && 1 <= t.d <= 31 && Valid(t)
    ensures DateOf(c) == t && ValidTime(c) && Stamp(days, c) == days * 86400 + rem
  {
    SplitDay(rem);
  }

  lemma DayAndRest(days: int, rem: int, ts: int)
    requires ts == days * 86400 + rem && 0 <= rem < 86400
    ensures ts / 86400 == days && ts % 86400 == rem
  {
  }

  lemma UnixFields(ts: U32)
    ensures ValidTime(UnixToCivil(ts)) && DateOf(UnixToCivil(ts)) == CivilFromDays(ts / 86400)
    ensures Stamp(ts / 86400, UnixToCivil(ts)) == ts
  {
    DateRange(ts / 86400);
    CivilFields(CivilFromDays(ts / 86400), ts % 86400, UnixToCivil(ts), ts / 86400);
  }

  lemma SecondsOf(c: Civil, t: Date, days: int, ts: U32)
    requires t == DateOf(c) && DaysFromCivil(t) == days && Stamp(days, c) == ts
    ensures Seconds(c) == ts && CivilToUnix(c) == ts
  {
  }

  lemma UnixDay(ts: U32, t: Date)
    requires t == CivilFromDays(ts / 86400)
    ensures DaysFromCivil(t) == ts / 86400
  {
    DaysOfDate(ts / 86400);
  }

  /** Every 32-bit timestamp survives the way through its civil time. */
  lemma UnixRoundTrip(ts: U32)
    ensures ValidTime(UnixToCivil(ts)) && Seconds(UnixToCivil(ts)) == ts
    ensures CivilToUnix(UnixToCivil(ts)) == ts
  {
    UnixFields(ts);
    var c := UnixToCivil(ts);
    UnixDay(ts, DateOf(c));
    SecondsOf(c, DateOf(c), ts / 86400, ts);
  }

  lemma SameTime(c: Civil, t: Date, days: int, ts: U32)
    requires ValidTime(c) && t == DateOf(c) && Stamp(days, c) == ts
    ensures ts / 86400 == days && CivilOf(t, ts % 86400) == c
  {
    JoinDay(c.hour, c.min, c.sec);
    DayAndRest(days, Stamp(0, c), ts);
  }

  lemma InRange(c: Civil, ts: U32)
    requires ValidTime(c) && Seconds(c) == ts
    ensures UnixToCivil(ts) == c
  {
    SameTime(c, DateOf(c), DaysFromCivil(DateOf(c)), ts);
    DateOfDays(DateOf(c));
  }

  /** A valid civil time survives the way through its timestamp if and only if
      it lies within the 32-bit range. */
  lemma CivilRoundTripIff(c: Civil, ts: U32)
    requires ValidTime(c) && ts == CivilToUnix(c)
    ensures UnixToCivil(ts) == c <==> 0 <= Seconds(c) < 0x1_0000_0000
  {
    if 0 <= Seconds(c) < 0x1_0000_0000 {
      InRange(c, ts);
    } else if UnixToCivil(ts) == c {
      UnixRoundTrip(ts);
    }
  }

  /* ---- the calendar as a reference ---- */

  /** The date n days after another. */
  function After(t: Date, n: nat): Date
    decreases n
  {
    if n == 0 then t else NextDay(After(t, n - 1))
  }

  ghost predicate CountsDays(f: int -> Date) {
    forall z: int, x: int {:trigger f(z), f(x)} :: x == z + 1 ==> f(x) == NextDay(f(z))
  }

  lemma {:induction false} CountsAfter(f: int -> Date, z: int, n: nat)
    requires CountsDays(f)
    ensures f(z + n) == After(f(z), n)
    decreases n
  {
    if n > 0 {
      CountsAfter(f, z, n - 1);
      assert f(z + n) == NextDay(f(z + n - 1));
    }
  }

  lemma CivilCountsDays()
    ensures CountsDays(CivilFromDays)
  {
    forall z: int, x: int | x == z + 1 ensures CivilFromDays(x) == NextDay(CivilFromDays(z)) {
      CivilOfNextDay(z);
    }
  }

  /** `civil_from_days` counts days in the Gregorian calendar. */
  lemma CivilIsCalendar(z: int, n: nat)
    ensures CivilFromDays(z + n) == After(CivilFromDays(z), n)
  {
    CivilCountsDays();
    CountsAfter(CivilFromDays, z, n);
  }

  predicate Before(t: Date, u: Date) {
    t.y < u.y || (t.y == u.y && (t.m < u.m || (t.m == u.m && t.d < u.d)))
  }

  lemma {:induction false} AfterIsLater(t: Date, n: nat)
    requires n > 0
    ensures Before(t, After(t, n))
    decreases n
  {
    if n > 1 {
      AfterIsLater(t, n - 1);
    } else {
      assert After(t, 0) == t;
    }
  }

  lemma CountsGrow(f: int -> Date, z: int, x: int)
    requires CountsDays(f) && z < x
    ensures Before(f(z), f(x))
  {
    CountsAfter(f, z, x - z);
    AfterIsLater(f(z), x - z);
  }

  /** Dates order as their day numbers do. */
  lemma DatesGrow(z: int, x: int)
    requires z < x
    ensures Before(CivilFromDays(z), CivilFromDays(x))
  {
    CivilCountsDays();
    CountsGrow(CivilFromDays, z, x);
  }
}
