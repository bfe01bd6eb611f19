/** History files: their names, the order of names, and the record codec. */
module History {
  import opened Bytes
  import opened CivilTime

  /* ---- names ---- */

  function Clamp(v: int, lo: int, hi: int): int {
    if v < lo then lo else if v > hi then hi else v
  }

  /** Two decimal digits. */
  function Two(n: nat): (r: seq<Byte>)
    requires n < 100
    ensures |r| == 2
  {
    [48 + n / 10, 48 + n % 10]
  }

  /** Day number and second of day in UTC+8. */
  function LocalDay(unix: U32): int {
    (unix + 8 * 3600) / 86400
  }

  function LocalSecs(unix: U32): int {
    (unix + 8 * 3600) % 86400
  }

  const PREFIX: seq<Byte> := [0x64, 0x61, 0x74, 0x61, 0x5F]
  const SUFFIX: seq<Byte> := [0x2E, 0x72, 0x61, 0x77]

  function NameOf(m: nat, d: nat, h: nat, mi: nat, s: nat): (r: seq<Byte>)
    requires m < 100 && d < 100 && h < 100 && mi < 100 && s < 100
    ensures |r| == 20
  {
    PREFIX + (Two(m) + (Two(d) + ([0x5F] + (Two(h) + (Two(mi) + (Two(s) + SUFFIX))))))
  }

  /** `data_MMDD_HHMMSS.raw`. */
  function Name(unix: U32): (r: seq<Byte>)
    ensures |r| == 20
  {
    NameAt(CivilFromDays(LocalDay(unix)), LocalSecs(unix))
  }

  function NameAt(t: Date, secs: int): (r: seq<Byte>)
    ensures |r| == 20
  {
    NameOf(Clamp(t.m, 1, 12), Clamp(t.d, 1, 31),
           Clamp(secs / 3600, 0, 23), Clamp(secs / 60 % 60, 0, 59), Clamp(secs % 60, 0, 59))
  }

  const TEMPLATE: seq<Byte> := [0x64, 0x61, 0x74, 0x61, 0x5F, 48, 48, 48, 48, 0x5F,
                                48, 48, 48, 48, 48, 48, 0x2E, 0x72, 0x61, 0x77]

  method FillName(m: nat, d: nat, h: nat, mi: nat, s: nat) returns (name: seq<Byte>)
    requires m < 100 && d < 100 && h < 100 && mi < 100 && s < 100
    ensures name == NameOf(m, d, h, mi, s)
  {
    name := TEMPLATE;
    name := name[5 := 48 + m / 10][6 := 48 + m % 10];
    name := name[7 := 48 + d / 10][8 := 48 + d % 10];
    name := name[10 := 48 + h / 10][11 := 48 + h % 10];
    name := name[12 := 48 + mi / 10][13 := 48 + mi % 10];
    name := name[14 := 48 + s / 10][15 := 48 + s % 10];
  }

  /** `make_hist_name`. */
  method MakeHistName(unix: U32) returns (name: seq<Byte>)
    ensures name == Name(unix)
  {
    var t, secs := CivilFromDays(LocalDay(unix)), LocalSecs(unix);
    var hour, min, sec := Clamp(secs / 3600, 0, 23), Clamp(secs / 60 % 60, 0, 59), Clamp(secs % 60, 0, 59);
    name := FillName(Clamp(t.m, 1, 12), Clamp(t.d, 1, 31), hour, min, sec);
  }

  /** The number two characters of a name spell. */
  function Spelled(name: seq<Byte>, i: nat): int
    requires i + 2 <= |name|
  {
    (name[i] as int - '0' as int) * 10 + (name[i + 1] as int - '0' as int)
  }

  predicate IsText(name: seq<Byte>, i: nat, text: string) {
    i + |text| <= |name| && forall k :: 0 <= k < |text| ==> name[i + k] == text[k] as int
  }

  /** The name spells this date and time of day. */
  predicate Spells(n: seq<Byte>, date: Date, secs: int) {
    && |n| == 20 && IsText(n, 0, "data_") && IsText(n, 9, "_") && IsText(n, 16, ".raw")
    && Spelled(n, 5) == date.m && Spelled(n, 7) == date.d
    && 0 <= Spelled(n, 10) < 24 && 0 <= Spelled(n, 12) < 60 && 0 <= Spelled(n, 14) < 60
    && Spelled(n, 10) * 3600 + Spelled(n, 12) * 60 + Spelled(n, 14) == secs
  }

  /** A name spells the month, day and time of day eight hours ahead of UTC; the date is
      always a real one, so that nothing is ever clamped. */
  lemma NameSpells(unix: U32)
    ensures var date := CivilFromDays((unix + 28800) / 86400);
            Valid(date) && Spells(Name(unix), date, (unix + 28800) % 86400)
  {
    DaysOfDate((unix + 28800) / 86400);
    NameAtSpells(CivilFromDays((unix + 28800) / 86400), (unix + 28800) % 86400);
  }

  lemma NameAtSpells(t: Date, secs: nat)
    requires Valid(t) && secs < 86400
    ensures Spells(NameAt(t, secs), t, secs)
  {
    Clocked(secs);
    NamePlaces(t.m, t.d, secs / 3600, secs / 60 % 60, secs % 60);
  }

  lemma Clocked(secs: nat)
    requires secs < 86400
    ensures secs / 3600 < 24 && secs / 3600 * 3600 + secs / 60 % 60 * 60 + secs % 60 == secs
  {
    var min := secs / 60;
    assert min / 60 == secs / 3600 && min == 60 * (min / 60) + min % 60 && secs == 60 * min + secs % 60;
  }

  lemma NamePlaces(m: nat, d: nat, h: nat, mi: nat, s: nat)
    requires m < 100 && d < 100 && h < 100 && mi < 100 && s < 100
    ensures var n := NameOf(m, d, h, mi, s);
            && IsText(n, 0, "data_") && IsText(n, 9, "_") && IsText(n, 16, ".raw")
            && Spelled(n, 5) == m && Spelled(n, 7) == d && Spelled(n, 10) == h && Spelled(n, 12) == mi
            && Spelled(n, 14) == s
  {
    var n := NameOf(m, d, h, mi, s);
    assert n[0] == 'd' as int && n[1] == 'a' as int && n[2] == 't' as int && n[3] == 'a' as int && n[4] == '_' as int;
    assert n[16] == '.' as int && n[17] == 'r' as int && n[18] == 'a' as int && n[19] == 'w' as int;
  }

  /* ---- the order of names ---- */

  /** Byte strings in dictionary order. */
  predicate Less(a: seq<Byte>, b: seq<Byte>)
    decreases |a|
  {
    if b == [] then false
    else if a == [] then true
    else a[0] < b[0] || (a[0] == b[0] && Less(a[1..], b[1..]))
  }

  lemma {:induction false} LessConcat(a: seq<Byte>, b: seq<Byte>, x: seq<Byte>, y: seq<Byte>)
    requires |a| == |b|
    ensures Less(a + x, b + y) <==> Less(a, b) || (a == b && Less(x, y))
    decreases |a|
  {
    if a == [] {
      assert a + x == x && b + y == y;
    } else {
      LessConcat(a[1..], b[1..], x, y);
      assert (a + x)[1..] == a[1..] + x && (b + y)[1..] == b[1..] + y;
      assert a == b <==> a[0] == b[0] && a[1..] == b[1..] by {
        assert a == [a[0]] + a[1..] && b == [b[0]] + b[1..];
      }
    }
  }

  lemma {:induction false} LessIrreflexive(a: seq<Byte>)
    ensures !Less(a, a)
    decreases |a|
  {
    if a != [] { LessIrreflexive(a[1..]); }
  }

  lemma {:induction false} LessTransitive(a: seq<Byte>, b: seq<Byte>, c: seq<Byte>)
    requires Less(a, b) && Less(b, c)
    ensures Less(a, c)
    decreases |a|
  {
    if a != [] && a[0] == b[0] == c[0] {
      LessTransitive(a[1..], b[1..], c[1..]);
    }
  }

  lemma LessAsymmetric(a: seq<Byte>, b: seq<Byte>)
    requires Less(a, b)
    ensures !Less(b, a)
  {
    if Less(b, a) {
      LessTransitive(a, b, a);
      LessIrreflexive(a);
    }
  }

  lemma LessOne(x: Byte, y: Byte)
    ensures Less([x], [y]) <==> x < y
  {
    assert [x][1..] == [] && [y][1..] == [];
  }

  lemma TwoLess(m: nat, n: nat)
    requires m < 100 && n < 100
    ensures Less(Two(m), Two(n)) <==> m < n
    ensures Two(m) == Two(n) <==> m == n
  {
    assert Two(m) == [48 + m / 10] + [48 + m % 10] && Two(n) == [48 + n / 10] + [48 + n % 10];
    LessConcat([48 + m / 10], [48 + n / 10], [48 + m % 10], [48 + n % 10]);
    LessOne(48 + m / 10, 48 + n / 10);
    LessOne(48 + m % 10, 48 + n % 10);
    assert m == 10 * (m / 10) + m % 10 && n == 10 * (n / 10) + n % 10;
    assert Two(m)[0] == 48 + m / 10 && Two(m)[1] == 48 + m % 10;
    assert Two(n)[0] == 48 + n / 10 && Two(n)[1] == 48 + n % 10;
  }

  // One more field in front of two rests.
  lemma FieldLess(m: nat, n: nat, x: seq<Byte>, y: seq<Byte>)
    requires m < 100 && n < 100
    ensures Less(Two(m) + x, Two(n) + y) <==> m < n || (m == n && Less(x, y))
  {
    TwoLess(m, n);
    LessConcat(Two(m), Two(n), x, y);
  }

  lemma SameFront(a: seq<Byte>, x: seq<Byte>, y: seq<Byte>)
    ensures Less(a + x, a + y) <==> Less(x, y)
  {
    LessIrreflexive(a);
    LessConcat(a, a, x, y);
  }

  /** The key a name spells, as one number. */
  function Key(m: nat, d: nat, h: nat, mi: nat, s: nat): nat {
    (((m * 100 + d) * 100 + h) * 100 + mi) * 100 + s
  }

  /** Names order as their digits do. */
  lemma NameOfLess(m: nat, d: nat, h: nat, mi: nat, s: nat, m': nat, d': nat, h': nat, mi': nat, s': nat)
    requires m < 100 && d < 100 && h < 100 && mi < 100 && s < 100
    requires m' < 100 && d' < 100 && h' < 100 && mi' < 100 && s' < 100
    ensures Less(NameOf(m, d, h, mi, s), NameOf(m', d', h', mi', s'))
            <==> Key(m, d, h, mi, s) < Key(m', d', h', mi', s')
  {
    LessIrreflexive(SUFFIX);
    var s1, t1 := Two(s) + SUFFIX, Two(s') + SUFFIX;
    FieldLess(s, s', SUFFIX, SUFFIX);
    var s2, t2 := Two(mi) + s1, Two(mi') + t1;
    FieldLess(mi, mi', s1, t1);
    var s3, t3 := Two(h) + s2, Two(h') + t2;
    FieldLess(h, h', s2, t2);
    var s4, t4 := [0x5F] + s3, [0x5F] + t3;
    SameFront([0x5F], s3, t3);
    FieldLess(d, d', s4, t4);
    FieldLess(m, m', Two(d) + s4, Two(d') + t4);
    SameFront(PREFIX, Two(m) + (Two(d) + s4), Two(m') + (Two(d') + t4));
  }

  /** Place in a year: month, day, second of the day. */
  predicate EarlierInYear(t: Date, secs: int, u: Date, secs': int) {
    t.m < u.m || (t.m == u.m && (t.d < u.d || (t.d == u.d && secs < secs')))
  }

  lemma SecsSplit(a: nat, b: nat)
    requires a < 86400 && b < 86400
    ensures a / 3600 < 24 && a / 60 % 60 < 60 && a % 60 < 60
    ensures a < b <==> || a / 3600 < b / 3600
                       || (a / 3600 == b / 3600 && (a / 60 % 60 < b / 60 % 60
                                                    || (a / 60 % 60 == b / 60 % 60 && a % 60 < b % 60)))
  {
    var ha, ma, sa, hb, mb, sb := a / 3600, a / 60 % 60, a % 60, b / 3600, b / 60 % 60, b % 60;
    assert a == 3600 * ha + 60 * ma + sa by { assert a / 60 / 60 == ha; }
    assert b == 3600 * hb + 60 * mb + sb by { assert b / 60 / 60 == hb; }
  }

  lemma NameAtLess(t: Date, a: nat, u: Date, b: nat)
    requires Valid(t) && Valid(u) && a < 86400 && b < 86400
    ensures Less(NameAt(t, a), NameAt(u, b)) <==> EarlierInYear(t, a, u, b)
  {
    SecsSplit(a, b);
    SecsSplit(b, a);
    NameOfLess(t.m, t.d, a / 3600, a / 60 % 60, a % 60, u.m, u.d, b / 3600, b / 60 % 60, b % 60);
  }

  /** The year, in UTC+8, that a timestamp falls in. */
  function LocalDate(unix: U32): Date {
    CivilFromDays(LocalDay(unix))
  }

  /** Names order exactly by place in the year; the year itself is not in them. */
  lemma NamesOrderByPlace(u: U32, v: U32)
    ensures Less(Name(u), Name(v)) <==> EarlierInYear(LocalDate(u), LocalSecs(u), LocalDate(v), LocalSecs(v))
  {
    ValidDate(u);
    ValidDate(v);
    NameAtLess(LocalDate(u), LocalSecs(u), LocalDate(v), LocalSecs(v));
  }

  lemma ValidDate(u: U32)
    ensures Valid(LocalDate(u))
  {
    DaysOfDate(LocalDay(u));
  }

  // Time order on dates and seconds.
  lemma LocalOrder(u: U32, v: U32, t: Date, w: Date)
    requires u < v && t == LocalDate(u) && w == LocalDate(v)
    ensures t.y < w.y || (t.y == w.y && EarlierInYear(t, LocalSecs(u), w, LocalSecs(v)))
  {
    if LocalDay(u) < LocalDay(v) {
      DatesGrow(LocalDay(u), LocalDay(v));
    } else {
      assert LocalDay(u) == LocalDay(v) && LocalSecs(u) < LocalSecs(v);
    }
  }

  /** Of two timestamps, the earlier has the smaller name if and only if both
      fall in one UTC+8 year or it also comes earlier in its year. */
  lemma NameOrderIff(u: U32, v: U32)
    requires u < v
    ensures Less(Name(u), Name(v)) <==>
              || LocalDate(u).y == LocalDate(v).y
              || EarlierInYear(LocalDate(u), LocalSecs(u), LocalDate(v), LocalSecs(v))
  {
    NamesOrderByPlace(u, v);
    LocalOrder(u, v, LocalDate(u), LocalDate(v));
  }

  lemma EarlierInSameYear(u: U32, v: U32)
    requires u < v && LocalDate(u).y == LocalDate(v).y
    ensures Less(Name(u), Name(v)) && !Less(Name(v), Name(u))
  {
    NameOrderIff(u, v);
    LessAsymmetric(Name(u), Name(v));
  }

  /** Within one UTC+8 year, name order is time order. */
  lemma NameOrderWithinYear(u: U32, v: U32)
    requires LocalDate(u).y == LocalDate(v).y
    ensures Less(Name(u), Name(v)) <==> u < v
  {
    if u < v {
      EarlierInSameYear(u, v);
    } else if v < u {
      EarlierInSameYear(v, u);
    } else {
      LessIrreflexive(Name(u));
    }
  }

  /** Across New Year it is not: one second later, the name is smaller. */
  lemma NewYearNames(u: U32, v: U32)
    requires u == 1609430399 && v == 1609430400
    ensures Less(Name(v), Name(u))
  {
    var p, q := Place(5, 0, 5, 0, 9, 31), Place(5, 0, 5, 0, 10, 1);
    CivilOn(LocalDay(u), p);
    CivilOn(LocalDay(v), q);
    NamesOrderByPlace(v, u);
  }

  /* ---- records ---- */

  datatype HisData = HisData(ty: U16, timestamps: U32, enStatus: U16, v0: U16, v1: U16, v2: U16, v3: U16)

  const DI_TYPE: U16 := 1
  const AI_TYPE: U16 := 2

  /** The 16-byte buffer; a DI record fills ten of it. */
  function ToBytes(h: HisData): (r: seq<Byte>)
    ensures |r| == 16
  {
    Le16(h.ty) + Le32(h.timestamps) + Le16(h.enStatus) + Le16(h.v0) +
    (if h.ty == DI_TYPE then [0, 0, 0, 0, 0, 0] else Le16(h.v1) + Le16(h.v2) + Le16(h.v3))
  }

  function RecLen(h: HisData): nat {
    if h.ty == DI_TYPE then 10 else 16
  }

  function FromBytes(b: seq<Byte>): Option<HisData> {
    if |b| < 10 then None
    else
      var ty := Num16(b[0..2]);
      if ty == DI_TYPE then
        Some(HisData(ty, Num32(b[2..6]), Num16(b[6..8]), Num16(b[8..10]), 0, 0, 0))
      else if ty == AI_TYPE && |b| >= 16 then
        Some(HisData(ty, Num32(b[2..6]), Num16(b[6..8]), Num16(b[8..10]),
                     Num16(b[10..12]), Num16(b[12..14]), Num16(b[14..16])))
      else None
  }

  lemma RecordHead(h: HisData, b: seq<Byte>)
    requires |b| >= 10 && b[..10] == ToBytes(h)[..10]
    ensures Num16(b[0..2]) == h.ty && Num32(b[2..6]) == h.timestamps
    ensures Num16(b[6..8]) == h.enStatus && Num16(b[8..10]) == h.v0
  {
    var x := b[..10];
    assert b[0..2] == x[0..2] == Le16(h.ty);
    assert b[2..6] == x[2..6] == Le32(h.timestamps);
    assert b[6..8] == x[6..8] == Le16(h.enStatus);
    assert b[8..10] == x[8..10] == Le16(h.v0);
    Num16Le16(h.ty);
    Num32Le32(h.timestamps);
    Num16Le16(h.enStatus);
    Num16Le16(h.v0);
  }

  lemma RecordTail(h: HisData)
    requires h.ty != DI_TYPE
    ensures var b := ToBytes(h);
            Num16(b[10..12]) == h.v1 && Num16(b[12..14]) == h.v2 && Num16(b[14..16]) == h.v3
  {
    var b := ToBytes(h);
    assert b[10..12] == Le16(h.v1) && b[12..14] == Le16(h.v2) && b[14..16] == Le16(h.v3);
    Num16Le16(h.v1);
    Num16Le16(h.v2);
    Num16Le16(h.v3);
  }

  /** What is stored: ten bytes of a DI record, sixteen of any other, all little endian. */
  lemma RecordStored(h: HisData)
    ensures var b := ToBytes(h)[..RecLen(h)];
            && |b| == (if h.ty == 1 then 10 else 16)
            && b[0..2] == Le16(h.ty) && b[2..6] == Le32(h.timestamps) && b[6..8] == Le16(h.enStatus)
            && b[8..10] == Le16(h.v0)
            && (h.ty != 1 ==> b[10..12] == Le16(h.v1) && b[12..14] == Le16(h.v2) && b[14..16] == Le16(h.v3))
  {
    var all := ToBytes(h);
    var b := all[..RecLen(h)];
    assert b[0..2] == all[0..2] && b[2..6] == all[2..6] && b[6..8] == all[6..8] && b[8..10] == all[8..10];
    if h.ty != 1 { assert b[10..12] == all[10..12] && b[12..14] == all[12..14] && b[14..16] == all[14..16]; }
  }

  /** The stored part of a record reads back as the record if and only if it is an
      AI record or a DI record with its unused values zero. */
  lemma HisRoundTripIff(h: HisData)
    ensures FromBytes(ToBytes(h)[..RecLen(h)]) == Some(h) <==>
            h.ty == AI_TYPE || (h.ty == DI_TYPE && h.v1 == 0 && h.v2 == 0 && h.v3 == 0)
  {
    var b := ToBytes(h)[..RecLen(h)];
    assert b[..10] == ToBytes(h)[..10];
    RecordHead(h, b);
    if h.ty != DI_TYPE {
      assert b == ToBytes(h);
      RecordTail(h);
    }
  }
}
