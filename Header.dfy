/** extract_metadata: the fields of an activPAL raw-file header, each read at
    a fixed byte offset. Arithmetic is exact: each header byte is a NumPy
    uint8 scalar, and combining it with a Python int gives a 64-bit integer
    under NumPy 1.x promotion, far wider than any value computed here. */
module Header {
  import opened Bytes

  /** A datetime.datetime as its six constructor arguments. */
  datatype Timestamp = Timestamp(year: int, month: int, day: int, hour: int, minute: int, second: int)

  datatype HeaderError =
    | HeaderTooShort    // IndexError: header[280] (or an earlier index) is past the end
    | InvalidStartDate  // ValueError from datetime(...) for the start bytes
    | InvalidStopDate   // ValueError from datetime(...) for the stop bytes

  /** The metadata record; duration is the timedelta in whole seconds. */
  datatype Meta = Meta(
    firmware: int,
    bitDepth: int,
    resolution: Option<int>,
    hz: int,
    axes: Option<int>,
    startDatetime: Timestamp,
    stopDatetime: Timestamp,
    duration: int,
    startCondition: Option<string>,
    stopCondition: Option<string>,
    fileCode: string,
    deviceId: int)

  /** header[280], the axes code, is the highest single byte read. */
  const MinHeaderLength := 281

  /** The file code occupies bytes 512 to 519. */
  const FileCodeStart := 512
  const FileCodeLength := 8

  // ---------------------------------------------------------------- firmware

  /** The firmware version: byte 39 weighted by 255 plus byte 17, a base-255
      reading of two bytes, which is exact only while the low byte is below 255. */
  function Firmware(high: byte, low: byte): (f: int)
    ensures 0 <= f <= 255 * 255 + 255
    ensures low < 255 ==> f / 255 == high as int && f % 255 == low as int
  {
    high as int * 255 + low as int
  }

  /** Because of the multiplier 255, a low byte of 255 reads the same as the
      next high byte with a low byte of 0. */
  lemma FirmwareLowByteOverlaps(high: byte)
    requires high < 255
    ensures Firmware(high, 255) == Firmware(high + 1, 0)
  {
  }

  /** The firmware values of two byte pairs with low bytes below 255 agree
      only when the pairs do. */
  lemma FirmwareInjectiveBelow255(h1: byte, l1: byte, h2: byte, l2: byte)
    requires l1 < 255 && l2 < 255
    ensures Firmware(h1, l1) == Firmware(h2, l2) <==> h1 == h2 && l1 == l2
  {
    if Firmware(h1, l1) == Firmware(h2, l2) {
      assert h1 as int == Firmware(h1, l1) / 255;
      assert h2 as int == Firmware(h2, l2) / 255;
    }
  }

  // ------------------------------------------------- bit depth and resolution

  /** header[38] < 128 gives bit depth 8, otherwise 10. */
  function BitDepth(b: byte): (d: int)
    ensures d == 8 || d == 10
    ensures d == 10 <==> b >= 128
  {
    if b < 128 then 8 else 10
  }

  /** The resolution code: header[38], less 128 when the depth flag is set. */
  function ResolutionCode(b: byte): (c: int)
    ensures 0 <= c < 128
    ensures c == b as int % 128
  {
    if b < 128 then b as int else b as int - 128
  }

  /** The depth flag and the resolution code together recover header[38]. */
  lemma DepthAndCodeRecoverByte(b: byte)
    ensures ResolutionCode(b) + (if BitDepth(b) == 10 then 128 else 0) == b as int
  {
  }

  const ResolutionMap: map<int, int> := map[0 := 2, 1 := 4, 2 := 8]

  function Pow2(n: nat): (p: nat)
    ensures p >= 1
  {
    if n == 0 then 1 else 2 * Pow2(n - 1)
  }

  /** The resolution lookup: 2 to the power code + 1 for the three known
      codes, None for every other. */
  function Resolution(code: int): (r: Option<int>)
    ensures r.Some? <==> 0 <= code <= 2
    ensures r.Some? ==> r.value == Pow2(code + 1)
  {
    Get(ResolutionMap, code)
  }

  // ----------------------------------------------------------------- axes

  const AxesMap: map<int, int> := map[0 := 3, 1 := 1]

  /** The axes lookup on byte 280: three axes for code 0, one for code 1. */
  function Axes(b: byte): (r: Option<int>)
    ensures r.Some? <==> b <= 1
    ensures r.Some? ==> r.value == 3 - 2 * b as int
  {
    Get(AxesMap, b as int)
  }

  // ------------------------------------------------------- start / stop modes

  const StartConditionMap: map<int, string> := map[0 := "Trigger", 1 := "Immediately", 2 := "Set Time"]

  const StopConditionMap: map<int, string> :=
    map[0 := "Memory Full", 3 := "Low Battery", 64 := "USB", 128 := "Programmed Time"]

  /** The start-mode lookup on byte 268: codes 0 to 2 are known. */
  function StartCondition(b: byte): (r: Option<string>)
    ensures r.Some? <==> b <= 2
  {
    Get(StartConditionMap, b as int)
  }

  /** The stop-mode lookup on byte 275: codes 0, 3, 64 and 128 are known. */
  function StopCondition(b: byte): (r: Option<string>)
    ensures r.Some? <==> b == 0 || b == 3 || b == 64 || b == 128
  {
    Get(StopConditionMap, b as int)
  }

  /** The label a start condition reads as, back to its code. */
  function StartConditionCode(name: string): (r: Option<byte>)
  {
    if name == "Trigger" then Some(0)
    else if name == "Immediately" then Some(1)
    else if name == "Set Time" then Some(2)
    else None
  }

  function StopConditionCode(name: string): (r: Option<byte>)
  {
    if name == "Memory Full" then Some(0)
    else if name == "Low Battery" then Some(3)
    else if name == "USB" then Some(64)
    else if name == "Programmed Time" then Some(128)
    else None
  }

  /** Each label names one code: reading the label back gives the byte. */
  lemma StartConditionRoundTrip(b: byte)
    ensures StartCondition(b).Some? ==> StartConditionCode(StartCondition(b).value) == Some(b)
  {
    if b <= 2 {
      assert StartCondition(b).value == StartConditionMap[b as int];
    }
  }

  lemma StopConditionRoundTrip(b: byte)
    ensures StopCondition(b).Some? ==> StopConditionCode(StopCondition(b).value) == Some(b)
  {
    if StopCondition(b).Some? {
      assert StopCondition(b).value == StopConditionMap[b as int];
    }
  }

  // -------------------------------------------------------------- datetimes

  predicate IsLeapYear(y: int) {
    y % 4 == 0 && (y % 100 != 0 || y % 400 == 0)
  }

  function DaysInMonth(y: int, m: int): (d: int)
    requires 1 <= m <= 12
    ensures 28 <= d <= 31
  {
    if m == 2 then (if IsLeapYear(y) then 29 else 28)
    else if m == 4 || m == 6 || m == 9 || m == 11 then 30
    else 31
  }

  function DaysInYear(y: int): int {
    if IsLeapYear(y) then 366 else 365
  }

  /** The range checks the datetime constructor makes on the six fields. */
  predicate ValidTimestamp(t: Timestamp): (ok: bool)
    ensures ok ==> 1 <= t.day <= 31 && 0 <= t.hour * 3600 + t.minute * 60 + t.second < 86400
    ensures ok && t.month == 2 && t.day == 29 ==> IsLeapYear(t.year)
  {
    && 1 <= t.year <= 9999
    && 1 <= t.month <= 12
    && 1 <= t.day <= DaysInMonth(t.year, t.month)
    && 0 <= t.hour < 24
    && 0 <= t.minute < 60
    && 0 <= t.second < 60
  }

  /** Days from 0001-01-01 to the first day of year y (proleptic Gregorian). */
  function DaysBeforeYear(y: int): int
    requires y >= 1
  {
    var p := y - 1;
    365 * p + p / 4 - p / 100 + p / 400
  }

  /** Days from the first of the year to the first of month m, as a table
      for a common year plus the leap day from March on. */
  function DaysBeforeMonth(y: int, m: int): (d: int)
    requires 1 <= m <= 12
    ensures 0 <= d
  {
    var common := [0, 31, 59, 90, 120, 151, 181, 212, 243, 273, 304, 334][m - 1];
    common + (if m > 2 && IsLeapYear(y) then 1 else 0)
  }

  /** Seconds since 0001-01-01 00:00:00. */
  function Seconds(t: Timestamp): (s: int)
    requires ValidTimestamp(t)
    ensures s >= 0
    ensures s / 86400 == DayNumber(t)
    ensures s % 86400 == t.hour * 3600 + t.minute * 60 + t.second
  {
    var days := DaysBeforeYear(t.year) + DaysBeforeMonth(t.year, t.month) + t.day - 1;
    days * 86400 + t.hour * 3600 + t.minute * 60 + t.second
  }

  /** The calendar order of the six fields, most significant first. */
  predicate Before(a: Timestamp, b: Timestamp) {
    if a.year != b.year then a.year < b.year
    else if a.month != b.month then a.month < b.month
    else if a.day != b.day then a.day < b.day
    else if a.hour != b.hour then a.hour < b.hour
    else if a.minute != b.minute then a.minute < b.minute
    else a.second < b.second
  }

  /** A year is one day longer than 365 exactly when it is a leap year:
      the counts of multiples of 4, 100 and 400 below it each grow by one
      when the year is such a multiple. */
  lemma YearLength(y: int)
    requires y >= 1
    ensures DaysBeforeYear(y + 1) == DaysBeforeYear(y) + DaysInYear(y)
  {
    LeapDays(y);
  }

  /** The multiples of 4, less those of 100, plus those of 400, up to y
      exceed those up to y - 1 by one exactly in a leap year. */
  lemma LeapDays(y: int)
    ensures (y / 4 - (y - 1) / 4) - (y / 100 - (y - 1) / 100) + (y / 400 - (y - 1) / 400) ==
            (if IsLeapYear(y) then 1 else 0)
  {
    MultiplesOf4(y);
    MultiplesOf100(y);
    MultiplesOf400(y);
    DivisorsOf400(y);
  }

  lemma DivisorsOf400(y: int)
    ensures y % 400 == 0 ==> y % 100 == 0
    ensures y % 100 == 0 ==> y % 4 == 0
  {
    if y % 400 == 0 {
      MultipleOf(y, 400, 100);
    }
    if y % 100 == 0 {
      MultipleOf(y, 100, 4);
    }
  }

  /** A multiple of k is a multiple of every divisor d of k. */
  lemma MultipleOf(y: int, k: int, d: int)
    requires (k == 400 && d == 100) || (k == 100 && d == 4)
    requires y % k == 0
    ensures y % d == 0
  {
    var q := y / k;
    assert y == k * q;
    var m := (k / d) * q;
    assert y == d * m;
  }

  lemma MultiplesOf4(y: int)
    ensures y / 4 - (y - 1) / 4 == if y % 4 == 0 then 1 else 0
  {
  }

  lemma MultiplesOf100(y: int)
    ensures y / 100 - (y - 1) / 100 == if y % 100 == 0 then 1 else 0
  {
  }

  lemma MultiplesOf400(y: int)
    ensures y / 400 - (y - 1) / 400 == if y % 400 == 0 then 1 else 0
  {
  }

  lemma {:induction false} YearsAdvance(a: int, b: int)
    requires 1 <= a < b
    ensures DaysBeforeYear(a) + DaysInYear(a) <= DaysBeforeYear(b)
    decreases b - a
  {
    YearLength(a);
    if a + 1 < b {
      YearsAdvance(a + 1, b);
    }
  }

  /** The months of a year follow one another and fill it. */
  lemma MonthsFitInYear(y: int, m: int)
    requires 1 <= m <= 12
    ensures DaysBeforeMonth(y, m) + DaysInMonth(y, m) <= DaysInYear(y)
    ensures m < 12 ==> DaysBeforeMonth(y, m + 1) == DaysBeforeMonth(y, m) + DaysInMonth(y, m)
  {
  }

  lemma {:induction false} MonthsAdvance(y: int, a: int, b: int)
    requires 1 <= a < b <= 12
    ensures DaysBeforeMonth(y, a) + DaysInMonth(y, a) <= DaysBeforeMonth(y, b)
    decreases b - a
  {
    MonthsFitInYear(y, a);
    if a + 1 < b {
      MonthsAdvance(y, a + 1, b);
      MonthsFitInYear(y, a + 1);
    }
  }

  /** The day number since 0001-01-01. */
  function DayNumber(t: Timestamp): int
    requires ValidTimestamp(t)
  {
    DaysBeforeYear(t.year) + DaysBeforeMonth(t.year, t.month) + t.day - 1
  }

  lemma DayNumberOrder(a: Timestamp, b: Timestamp)
    requires ValidTimestamp(a) && ValidTimestamp(b)
    requires (a.year, a.month, a.day) != (b.year, b.month, b.day)
    ensures DayNumber(a) < DayNumber(b) <==> Before(a, b)
  {
    if a.year < b.year {
      MonthsFitInYear(a.year, a.month);
      YearsAdvance(a.year, b.year);
    } else if b.year < a.year {
      MonthsFitInYear(b.year, b.month);
      YearsAdvance(b.year, a.year);
    } else if a.month < b.month {
      MonthsAdvance(a.year, a.month, b.month);
    } else if b.month < a.month {
      MonthsAdvance(a.year, b.month, a.month);
    }
  }

  /** Seconds since the epoch order timestamps the way the calendar does, and
      tell them apart: the duration datetime subtraction yields is positive
      exactly when the stop comes after the start. */
  lemma SecondsOrderIsCalendarOrder(a: Timestamp, b: Timestamp)
    requires ValidTimestamp(a) && ValidTimestamp(b)
    ensures Seconds(a) < Seconds(b) <==> Before(a, b)
    ensures Seconds(a) == Seconds(b) <==> a == b
  {
    var da, db := DayNumber(a), DayNumber(b);
    var sa := a.hour * 3600 + a.minute * 60 + a.second;
    var sb := b.hour * 3600 + b.minute * 60 + b.second;
    assert Seconds(a) == da * 86400 + sa && Seconds(b) == db * 86400 + sb;
    assert 0 <= sa < 86400 && 0 <= sb < 86400;
    if (a.year, a.month, a.day) != (b.year, b.month, b.day) {
      DayNumberOrder(a, b);
      DayNumberOrder(b, a);
      if da < db {
        assert da * 86400 + 86400 <= db * 86400;
      } else {
        assert db * 86400 + 86400 <= da * 86400;
      }
    }
  }

  // ------------------------------------------------------------ file code

  /** The characters of the non-zero bytes, in order: chr(x) for every x that
      is not 0. */
  function NonZeroChars(s: seq<byte>): (r: string)
    ensures |r| <= |s|
    ensures forall c :: c in r ==> 0 < c as int < 256
    ensures forall j :: 0 <= j < |s| && s[j] != 0 ==> s[j] as int as char in r
    ensures forall c :: c in r ==> c as int as byte in s
  {
    if s == [] then []
    else (if s[0] == 0 then [] else [s[0] as int as char]) + NonZeroChars(s[1..])
  }

  /** One byte: dropped when it is 0, its character otherwise. Together with
      NonZeroCharsAppend this fixes the characters and their order. */
  lemma NonZeroCharsOfByte(b: byte)
    ensures NonZeroChars([b]) == if b == 0 then "" else [b as int as char]
  {
    assert [b][1..] == [];
  }

  lemma {:induction false} NonZeroCharsAppend(a: seq<byte>, b: seq<byte>)
    ensures NonZeroChars(a + b) == NonZeroChars(a) + NonZeroChars(b)
    decreases |a|
  {
    if a != [] {
      assert (a + b)[1..] == a[1..] + b;
      NonZeroCharsAppend(a[1..], b);
    } else {
      assert a + b == b;
    }
  }

  /** Bytes 512 to 519 of the header, clipped to the header as a slice is. */
  function FileCodeBytes(h: seq<byte>): (w: seq<byte>)
    ensures |w| <= FileCodeLength
  {
    h[Min(FileCodeStart, |h|)..Min(FileCodeStart + FileCodeLength, |h|)]
  }

  /** The file code is at most eight characters, none of them NUL. */
  function FileCode(h: seq<byte>): (code: string)
    ensures |code| <= FileCodeLength
    ensures forall c :: c in code ==> c != 0 as char
  {
    NonZeroChars(FileCodeBytes(h))
  }

  // ------------------------------------------------------------ device id

  /** The device id: the last digit of the year code in header[10] as the
      hundred-thousands digit, plus header[14] ten-thousands and the four
      bytes 40, 11, 12, 13 in place values 4096, 256, 16 and 1. */
  function DeviceId(yearCode: byte, b14: byte, b40: byte, b11: byte, b12: byte, b13: byte): (id: int)
    ensures 0 <= id <= 9 * 100000 + 255 * (10000 + 4096 + 256 + 16 + 1)
  {
    (yearCode as int % 10) * 100000 + b14 as int * 10000 + b40 as int * 4096 +
    b11 as int * 256 + b12 as int * 16 + b13 as int
  }

  /** The leading digit is the year's last digit (header[10] % 10) whenever
      the other five bytes add up to less than 100000, as for digit-sized
      values (header[14] below 3, and 40, 11, 12, 13 hexadecimal digits). */
  lemma DeviceIdLeadingDigit(yearCode: byte, b14: byte, b40: byte, b11: byte, b12: byte, b13: byte)
    requires b14 as int * 10000 + b40 as int * 4096 + b11 as int * 256 + b12 as int * 16 + b13 as int < 100000
    ensures DeviceId(yearCode, b14, b40, b11, b12, b13) / 100000 == yearCode as int % 10
    ensures DeviceId(yearCode, b14, b40, b11, b12, b13) % 100000 ==
            b14 as int * 10000 + b40 as int * 4096 + b11 as int * 256 + b12 as int * 16 + b13 as int
  {
  }

  /** For digit-sized bytes (header[14] below 3, the other four hexadecimal
      digits) the year digit leads and the five low decimal places hold
      header[14] * 10000 plus the four-digit hexadecimal number. */
  lemma DeviceIdOfDigits(yearCode: byte, b14: byte, b40: byte, b11: byte, b12: byte, b13: byte)
    requires b14 < 3 && b40 < 16 && b11 < 16 && b12 < 16 && b13 < 16
    ensures DeviceId(yearCode, b14, b40, b11, b12, b13) / 100000 == yearCode as int % 10
    ensures DeviceId(yearCode, b14, b40, b11, b12, b13) % 100000 ==
            b14 as int * 10000 + (b40 as int * 4096 + b11 as int * 256 + b12 as int * 16 + b13 as int)
  {
    DeviceIdLeadingDigit(yearCode, b14, b40, b11, b12, b13);
  }

  // --------------------------------------------------------- the record

  /** The start time: year offset from 2000 in byte 261, then month, day in
      bytes 260 and 259, and hour, minute, second in bytes 256 to 258. */
  function StartTimestamp(h: seq<byte>): (t: Timestamp)
    requires |h| >= MinHeaderLength
    ensures 2000 <= t.year <= 2255
  {
    Timestamp(h[261] as int + 2000, h[260] as int, h[259] as int, h[256] as int, h[257] as int, h[258] as int)
  }

  /** The stop time: year offset from 2000 in byte 267, then month, day in
      bytes 266 and 265, and hour, minute, second in bytes 262 to 264. */
  function StopTimestamp(h: seq<byte>): (t: Timestamp)
    requires |h| >= MinHeaderLength
    ensures 2000 <= t.year <= 2255
  {
    Timestamp(h[267] as int + 2000, h[266] as int, h[265] as int, h[262] as int, h[263] as int, h[264] as int)
  }

  /** extract_metadata: an IndexError for a header too short to hold byte
      280, then a ValueError for an impossible start or stop date, in that
      order; otherwise the record. */
  function ExtractMetadata(h: seq<byte>): (r: Result<Meta, HeaderError>)
    ensures |h| < MinHeaderLength <==> r == Err(HeaderTooShort)
    ensures |h| >= MinHeaderLength ==>
      && (r == Err(InvalidStartDate) <==> !ValidTimestamp(StartTimestamp(h)))
      && (r == Err(InvalidStopDate) <==>
            ValidTimestamp(StartTimestamp(h)) && !ValidTimestamp(StopTimestamp(h)))
    ensures r.Ok? ==>
      && ValidTimestamp(r.value.startDatetime) && ValidTimestamp(r.value.stopDatetime)
      && (r.value.duration > 0 <==> Before(r.value.startDatetime, r.value.stopDatetime))
      && (r.value.duration == 0 <==> r.value.startDatetime == r.value.stopDatetime)
      && |r.value.fileCode| <= FileCodeLength
      && r.value.resolution == Resolution(h[38] as int % 128)
  {
    if |h| < MinHeaderLength then Err(HeaderTooShort)
    else
      var start := StartTimestamp(h);
      var stop := StopTimestamp(h);
      if !ValidTimestamp(start) then Err(InvalidStartDate)
      else if !ValidTimestamp(stop) then Err(InvalidStopDate)
      else
        SecondsOrderIsCalendarOrder(start, stop);
        Ok(Meta(
          firmware := Firmware(h[39], h[17]),
          bitDepth := BitDepth(h[38]),
          resolution := Resolution(ResolutionCode(h[38])),
          hz := h[35] as int,
          axes := Axes(h[280]),
          startDatetime := start,
          stopDatetime := stop,
          duration := Seconds(stop) - Seconds(start),
          startCondition := StartCondition(h[268]),
          stopCondition := StopCondition(h[275]),
          fileCode := FileCode(h),
          deviceId := DeviceId(h[10], h[14], h[40], h[11], h[12], h[13])))
  }

  /** Only bytes 0 to 519 of the header are read: headers that agree there
      give the same metadata. */
  lemma MetadataReadsFirst520Bytes(h1: seq<byte>, h2: seq<byte>)
    requires |h1| >= FileCodeStart + FileCodeLength && |h2| >= FileCodeStart + FileCodeLength
    requires h1[..FileCodeStart + FileCodeLength] == h2[..FileCodeStart + FileCodeLength]
    ensures ExtractMetadata(h1) == ExtractMetadata(h2)
  {
    var n := FileCodeStart + FileCodeLength;
    assert forall j :: 0 <= j < n ==> h1[j] == h1[..n][j] && h2[j] == h2[..n][j];
    assert FileCodeBytes(h1) == FileCodeBytes(h2);
    assert StartTimestamp(h1) == StartTimestamp(h2);
    assert StopTimestamp(h1) == StopTimestamp(h2);
    assert h1[10] == h2[10] && h1[11] == h2[11] && h1[12] == h2[12] && h1[13] == h2[13] && h1[14] == h2[14];
    assert h1[17] == h2[17] && h1[35] == h2[35] && h1[38] == h2[38] && h1[39] == h2[39] && h1[40] == h2[40];
    assert h1[268] == h2[268] && h1[275] == h2[275] && h1[280] == h2[280];
  }
}
