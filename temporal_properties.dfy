/**
 * Packers for every temporal encoding (the way MySQL lays the fields out)
 * and the round trips that tie them to the decoders, plus worked examples.
 */
module TemporalProperties {
  import opened Common
  import opened Bytes
  import opened FieldDescriptors
  import opened TemporalFields
  import opened Arithmetic

  // ---------------------------------------------------------------------
  // Legacy encodings
  // ---------------------------------------------------------------------

  function PackYear(year: int): (b: seq<Byte>)
    requires 1900 <= year <= 2155
    ensures |b| == 1
  {
    [year - 1900]
  }

  lemma YearRoundTrip(nullable: NullableColumn, year: int, rest: seq<Byte>)
    requires 1900 <= year <= 2155
    ensures ParseValue(NewYearFieldDescriptor(nullable), PackYear(year) + rest)
            == Ok(Parsed(DateArgs(year, 0, 0, 0, 0, 0, 0), rest))
  {
    assert (PackYear(year) + rest)[..1] == PackYear(year);
    assert (PackYear(year) + rest)[1..] == rest;
  }

  /** Every YEAR byte is the packing of the year it decodes to. */
  lemma YearDecodeIsPacked(b: seq<Byte>)
    requires |b| == 1
    ensures PackYear(DecodeYear(b).year) == b
  {
  }

  lemma TimestampRoundTrip(nullable: NullableColumn, sec: int, rest: seq<Byte>)
    requires 0 <= sec < 0x1_0000_0000
    ensures ParseValue(NewTimestampFieldDescriptor(nullable), EncodeLittleEndian(sec, 4) + rest)
            == Ok(Parsed(UnixTime(sec, 0), rest))
  {
    Pow256Table();
    var b := EncodeLittleEndian(sec, 4);
    assert (b + rest)[..4] == b;
    assert b[..4] == b;
    assert (b + rest)[4..] == rest;
  }

  /** The fields of a legacy DATETIME are the decimal digit pairs of its value. */
  lemma DecimalDateTimeDigits(year: int, month: int, day: int,
                              hour: int, minute: int, second: int)
    requires 0 <= year
    requires 0 <= month < 100 && 0 <= day < 100
    requires 0 <= hour < 100 && 0 <= minute < 100 && 0 <= second < 100
    ensures var v := DecimalDateTime(year, month, day, hour, minute, second);
            && v / 1000000 / 10000 == year
            && v / 1000000 % 10000 / 100 == month
            && v / 1000000 % 100 == day
            && v % 1000000 / 10000 == hour
            && v % 1000000 % 10000 / 100 == minute
            && v % 1000000 % 100 == second
  {
    var d := (year * 100 + month) * 100 + day;
    var t := (hour * 100 + minute) * 100 + second;
    var v := DecimalDateTime(year, month, day, hour, minute, second);
    assert v == d * 1000000 + t;
    DivModUnique(v, 1000000, d, t);
    DivModUnique(d, 10000, year, month * 100 + day);
    DivModUnique(d, 100, year * 100 + month, day);
    DivModUnique(month * 100 + day, 100, month, day);
    DivModUnique(t, 10000, hour, minute * 100 + second);
    DivModUnique(t, 100, hour * 100 + minute, second);
    DivModUnique(minute * 100 + second, 100, minute, second);
  }

  lemma DateTimeRoundTrip(nullable: NullableColumn, year: int, month: int, day: int,
                          hour: int, minute: int, second: int, rest: seq<Byte>)
    requires 0 <= year
    requires 0 <= month < 100 && 0 <= day < 100
    requires 0 <= hour < 100 && 0 <= minute < 100 && 0 <= second < 100
    requires DecimalDateTime(year, month, day, hour, minute, second) < 0x1_0000_0000_0000_0000
    ensures
      var b := EncodeLittleEndian(DecimalDateTime(year, month, day, hour, minute, second), 8);
      ParseValue(NewDateTimeFieldDescriptor(nullable), b + rest)
      == Ok(Parsed(DateArgs(year, month, day, hour, minute, second, 0), rest))
  {
    Pow256Table();
    var b := EncodeLittleEndian(DecimalDateTime(year, month, day, hour, minute, second), 8);
    assert (b + rest)[..8] == b && b[..8] == b;
    assert (b + rest)[8..] == rest;
    DecimalDateTimeDigits(year, month, day, hour, minute, second);
  }

  /** DATE's packed integer for a calendar date; 0 only for 0000-00-00. */
  function DatePacked(year: int, month: int, day: int): int
  {
    year * 512 + month * 32 + day
  }

  lemma DateRoundTrip(nullable: NullableColumn, year: int, month: int, day: int, rest: seq<Byte>)
    requires 0 <= year < 0x8000 && 0 <= month < 16 && 0 <= day < 32
    ensures
      var b := EncodeLittleEndian(DatePacked(year, month, day), 3);
      ParseValue(NewDateFieldDescriptor(nullable), b + rest)
      == Ok(Parsed(if year == 0 && month == 0 && day == 0 then ZeroDate
                   else DateText(year, month, day), rest))
  {
    Pow256Table();
    var i := DatePacked(year, month, day);
    var b := EncodeLittleEndian(i, 3);
    assert (b + rest)[..3] == b && b[..3] == b;
    assert (b + rest)[3..] == rest;
    DivModUnique(i, 512, year, month * 32 + day);
    DivModUnique(i, 32, year * 16 + month, day);
    DivModUnique(year * 16 + month, 16, year, month);
  }

  /** TIME's packed integer for a time of day; 0 only for 00:00:00. */
  function TimePacked(hour: int, minute: int, second: int): int
  {
    hour * 10000 + minute * 100 + second
  }

  lemma TimeRoundTrip(nullable: NullableColumn, hour: int, minute: int, second: int,
                      rest: seq<Byte>)
    requires 0 <= hour && 0 <= minute < 100 && 0 <= second < 100
    requires TimePacked(hour, minute, second) < 0x100_0000
    ensures
      var b := EncodeLittleEndian(TimePacked(hour, minute, second), 3);
      ParseValue(NewTimeFieldDescriptor(nullable), b + rest)
      == Ok(Parsed(if hour == 0 && minute == 0 && second == 0 then ZeroTime
                   else TimeText(hour, minute, second), rest))
  {
    Pow256Table();
    var i := TimePacked(hour, minute, second);
    var b := EncodeLittleEndian(i, 3);
    assert (b + rest)[..3] == b && b[..3] == b;
    assert (b + rest)[3..] == rest;
    DivModUnique(i, 10000, hour, minute * 100 + second);
    DivModUnique(minute * 100 + second, 100, minute, second);
  }

  // ---------------------------------------------------------------------
  // The shared v2 base
  // ---------------------------------------------------------------------

  /** More precision never takes fewer bytes, and never more than 3. */
  lemma ExtraBytesMonotone(p: int, q: int)
    requires 0 <= p <= q <= 6
    ensures ExtraBytes(p) <= ExtraBytes(q) <= 3
  {
  }

  /** usec is representable at this precision: a whole number of stored units
      that fits the fraction's two's-complement width. */
  ghost predicate FractionFits(precision: int, usec: int)
    requires 0 <= precision <= 6
  {
    var units := usec / FractionScale(precision);
    && usec % FractionScale(precision) == 0
    && 0 <= 2 * units + Pow256(ExtraBytes(precision))
    && 2 * units < Pow256(ExtraBytes(precision))
  }

  /** The fraction bytes MySQL writes after the fixed part. */
  function EncodeFraction(precision: int, usec: int): (b: seq<Byte>)
    requires 0 <= precision <= 6 && FractionFits(precision, usec)
    ensures |b| == ExtraBytes(precision)
  {
    EncodeSignedBigEndian(usec / FractionScale(precision), ExtraBytes(precision))
  }

  lemma ReadDataRoundTrip(d: UsecTemporalFieldDescriptor, fixed: seq<Byte>, usec: int,
                          rest: seq<Byte>)
    requires d.Valid() && |fixed| == d.fixedSize
    requires FractionFits(d.microSecondPrecision, usec)
    ensures d.ReadData(fixed + EncodeFraction(d.microSecondPrecision, usec) + rest)
            == Ok(UsecData(fixed, usec, rest))
  {
    var frac := EncodeFraction(d.microSecondPrecision, usec);
    var data := fixed + frac + rest;
    assert data[..d.fixedSize] == fixed;
    assert data[d.fixedSize..d.neededBytes] == frac;
    assert data[d.neededBytes..] == rest;
    FractionUnits(d.microSecondPrecision, usec);
  }

  /** A representable fraction is a whole number of stored units. */
  lemma FractionUnits(precision: int, usec: int)
    requires 0 <= precision <= 6 && FractionFits(precision, usec)
    ensures FractionScale(precision) * (usec / FractionScale(precision)) == usec
  {
    var scale := FractionScale(precision);
    DivModUnique(usec, scale, usec / scale, 0);
  }

  // ---------------------------------------------------------------------
  // TIME2
  // ---------------------------------------------------------------------

  lemma Time2PackedFields(hour: int, minute: int, second: int)
    requires 0 <= hour < 1024 && 0 <= minute < 64 && 0 <= second < 64
    ensures var hms := Time2Packed(hour, minute, second);
            && hms < 0x40_0000
            && (hms / 0x1000) % 0x400 == hour
            && (hms / 0x40) % 0x40 == minute
            && hms % 0x40 == second
  {
    var hms := Time2Packed(hour, minute, second);
    DivModUnique(hms, 0x1000, hour, minute * 0x40 + second);
    DivModUnique(hms, 0x40, hour * 0x40 + minute, second);
    DivModUnique(hour * 0x40 + minute, 0x40, hour, minute);
  }

  lemma Time2RoundTrip(d: UsecTemporalFieldDescriptor, hour: int, minute: int, second: int,
                       usec: int, rest: seq<Byte>)
    requires d.Valid() && d.fixedSize == 3
    requires 0 <= hour < 1024 && 0 <= minute < 64 && 0 <= second < 64
    requires FractionFits(d.microSecondPrecision, usec)
    ensures
      var data := EncodeBigEndian(Time2Packed(hour, minute, second), 3)
                  + EncodeFraction(d.microSecondPrecision, usec) + rest;
      d.Time2ParseValue(data)
      == Ok(Parsed(DateArgs(0, 0, 0, hour, minute, second, 1000 * usec), rest))
  {
    Pow256Table();
    var hms := Time2Packed(hour, minute, second);
    Time2PackedFields(hour, minute, second);
    var fixed := EncodeBigEndian(hms, 3);
    DivModUnique(hms, 0x40_0000, 0, hms);
    Time2FromFixed(d, fixed, hms, usec, rest);
  }

  /** The common step of the TIME2 round trips: a fixed part whose low 22
      bits are hms decodes to the fields packed in hms. */
  lemma Time2FromFixed(d: UsecTemporalFieldDescriptor, fixed: seq<Byte>, hms: int,
                       usec: int, rest: seq<Byte>)
    requires d.Valid() && d.fixedSize == 3 && |fixed| == 3
    requires 0 <= hms < 0x40_0000 && BigEndianValue(fixed) % 0x40_0000 == hms
    requires FractionFits(d.microSecondPrecision, usec)
    ensures
      var data := fixed + EncodeFraction(d.microSecondPrecision, usec) + rest;
      d.Time2ParseValue(data)
      == Ok(Parsed(DateArgs(0, 0, 0, (hms / 0x1000) % 0x400, (hms / 0x40) % 0x40, hms % 0x40,
                            1000 * usec), rest))
  {
    ReadDataRoundTrip(d, fixed, usec, rest);
    var data := fixed + EncodeFraction(d.microSecondPrecision, usec) + rest;
    assert data[..3] == fixed;
    var r := d.Time2ParseValue(data);
    assert r.Ok?;
    assert r.value.remaining == rest;
    var v := r.value.value;
    assert Time2Packed(v.hour, v.minute, v.second) == hms;
    Time2PackedFields(v.hour, v.minute, v.second);
  }

  /**
   * MySQL stores a non-negative TIME2 with 0x800000 added (its sign bit).
   * The decoder applies no offset, yet such values decode to the same fields,
   * because the hour is taken modulo 1024 and so bits 22 and 23 are dropped.
   */
  lemma Time2IgnoresSignBit(d: UsecTemporalFieldDescriptor, hour: int, minute: int,
                            second: int, usec: int, rest: seq<Byte>)
    requires d.Valid() && d.fixedSize == 3
    requires 0 <= hour < 1024 && 0 <= minute < 64 && 0 <= second < 64
    requires FractionFits(d.microSecondPrecision, usec)
    ensures
      var data := EncodeBigEndian(0x80_0000 + Time2Packed(hour, minute, second), 3)
                  + EncodeFraction(d.microSecondPrecision, usec) + rest;
      d.Time2ParseValue(data)
      == Ok(Parsed(DateArgs(0, 0, 0, hour, minute, second, 1000 * usec), rest))
  {
    Pow256Table();
    Time2PackedFields(hour, minute, second);
    var hms := Time2Packed(hour, minute, second);
    var fixed := EncodeBigEndian(0x80_0000 + hms, 3);
    DivModUnique(0x80_0000 + hms, 0x40_0000, 2, hms);
    Time2FromFixed(d, fixed, hms, usec, rest);
  }

  // ---------------------------------------------------------------------
  // TIMESTAMP2
  // ---------------------------------------------------------------------

  lemma Timestamp2RoundTrip(d: UsecTemporalFieldDescriptor, sec: int, usec: int,
                            rest: seq<Byte>)
    requires d.Valid() && d.fixedSize == 4
    requires -0x8000_0000 <= sec < 0x8000_0000
    requires FractionFits(d.microSecondPrecision, usec)
    ensures
      var data := EncodeSignedBigEndian(sec, 4)
                  + EncodeFraction(d.microSecondPrecision, usec) + rest;
      d.Timestamp2ParseValue(data) == Ok(Parsed(UnixTime(sec, 1000 * usec), rest))
  {
    Pow256Table();
    var fixed := EncodeSignedBigEndian(sec, 4);
    ReadDataRoundTrip(d, fixed, usec, rest);
    var data := fixed + EncodeFraction(d.microSecondPrecision, usec) + rest;
    assert data[..4] == fixed;
    var r := d.Timestamp2ParseValue(data);
    assert r.Ok? && r.value.remaining == rest;
    var v := r.value.value;
    var m, u := 0x1_0000_0000, BigEndianValue(fixed);
    assert u == if sec < 0 then sec + m else sec;
    DivModUnique(sec, m, if sec < 0 then -1 else 0, u);
    Int32Unique(sec, v.sec);
  }

  /** Two int32 values with the same low 32 bits are equal. */
  lemma Int32Unique(a: int, b: int)
    requires -0x8000_0000 <= a < 0x8000_0000 && -0x8000_0000 <= b < 0x8000_0000
    requires a % 0x1_0000_0000 == b % 0x1_0000_0000
    ensures a == b
  {
    var m := 0x1_0000_0000;
    DivModUnique(a, m, if a < 0 then -1 else 0, if a < 0 then a + m else a);
    DivModUnique(b, m, if b < 0 then -1 else 0, if b < 0 then b + m else b);
  }

  // ---------------------------------------------------------------------
  // DATETIME2
  // ---------------------------------------------------------------------

  lemma DateTime2PackedFields(year: int, month: int, day: int,
                              hour: int, minute: int, second: int)
    requires 0 <= year && 0 <= month < 13 && 0 <= day < 32
    requires 0 <= hour < 32 && 0 <= minute < 64 && 0 <= second < 64
    ensures var y := DateTime2Packed(year, month, day, hour, minute, second);
            && y / 0x2_0000 / 0x20 / 13 == year
            && y / 0x2_0000 / 0x20 % 13 == month
            && y / 0x2_0000 % 0x20 == day
            && y % 0x2_0000 / 0x1000 == hour
            && (y % 0x2_0000 / 0x40) % 0x40 == minute
            && y % 0x2_0000 % 0x40 == second
  {
    var hms := Time2Packed(hour, minute, second);
    var ymd := (year * 13 + month) * 0x20 + day;
    var y := DateTime2Packed(year, month, day, hour, minute, second);
    DivModUnique(y, 0x2_0000, ymd, hms);
    DivModUnique(ymd, 0x20, year * 13 + month, day);
    DivModUnique(year * 13 + month, 13, year, month);
    DivModUnique(hms, 0x1000, hour, minute * 0x40 + second);
    DivModUnique(hms, 0x40, hour * 0x40 + minute, second);
    DivModUnique(hour * 0x40 + minute, 0x40, hour, minute);
  }

  /** DATETIME2 fields that fit below DATETIMEF_INT_OFS round-trip through
      the 5-byte encoding. */
  lemma DateTime2RoundTrip(d: UsecTemporalFieldDescriptor, year: int, month: int, day: int,
                           hour: int, minute: int, second: int, usec: int, rest: seq<Byte>)
    requires d.Valid() && d.fixedSize == 5
    requires 0 <= year && 0 <= month < 13 && 0 <= day < 32
    requires 0 <= hour < 32 && 0 <= minute < 64 && 0 <= second < 64
    requires DateTime2Packed(year, month, day, hour, minute, second) < DatetimefIntOffset
    requires FractionFits(d.microSecondPrecision, usec)
    ensures
      var p := DateTime2Packed(year, month, day, hour, minute, second) + DatetimefIntOffset;
      var data := EncodeBigEndian(p, 5) + EncodeFraction(d.microSecondPrecision, usec) + rest;
      d.DateTime2ParseValue(data)
      == Ok(Parsed(DateArgs(year, month, day, hour, minute, second, 1000 * usec), rest))
  {
    Pow256Table();
    var y := DateTime2Packed(year, month, day, hour, minute, second);
    DateTime2PackedFields(year, month, day, hour, minute, second);
    var fixed := EncodeBigEndian(y + DatetimefIntOffset, 5);
    DateTime2FromFixed(d, fixed, y, usec, rest);
  }

  /** The common step of the DATETIME2 round trip: a fixed part holding
      y + DATETIMEF_INT_OFS decodes to the fields packed in y. */
  lemma DateTime2FromFixed(d: UsecTemporalFieldDescriptor, fixed: seq<Byte>, y: int,
                           usec: int, rest: seq<Byte>)
    requires d.Valid() && d.fixedSize == 5 && |fixed| == 5
    requires 0 <= y < DatetimefIntOffset && BigEndianValue(fixed) == y + DatetimefIntOffset
    requires FractionFits(d.microSecondPrecision, usec)
    ensures
      var data := fixed + EncodeFraction(d.microSecondPrecision, usec) + rest;
      d.DateTime2ParseValue(data)
      == Ok(Parsed(DateArgs(y / 0x2_0000 / 0x20 / 13, y / 0x2_0000 / 0x20 % 13,
                            y / 0x2_0000 % 0x20, y % 0x2_0000 / 0x1000,
                            (y % 0x2_0000 / 0x40) % 0x40, y % 0x2_0000 % 0x40,
                            1000 * usec), rest))
  {
    ReadDataRoundTrip(d, fixed, usec, rest);
    var data := fixed + EncodeFraction(d.microSecondPrecision, usec) + rest;
    assert data[..5] == fixed;
    DivModUnique(y, Uint64Modulus, 0, y);
    var r := d.DateTime2ParseValue(data);
    assert r.Ok?;
    assert r.value.remaining == rest;
    var v := r.value.value;
    assert DateTime2Packed(v.year, v.month, v.day, v.hour, v.minute, v.second) == y;
    DateTime2PackedFields(v.year, v.month, v.day, v.hour, v.minute, v.second);
  }

  /**
   * A packed value below DATETIMEF_INT_OFS (a negative datetime in MySQL's
   * layout) is not rejected: the uint64 subtraction wraps and the year comes
   * out above 2^38.
   */
  lemma DateTime2BelowOffsetWraps(d: UsecTemporalFieldDescriptor, data: seq<Byte>)
    requires d.Valid() && d.fixedSize == 5 && |data| >= d.neededBytes
    requires BigEndianValue(data[..5]) < DatetimefIntOffset
    ensures d.DateTime2ParseValue(data).Ok?
    ensures d.DateTime2ParseValue(data).value.value.year >= 0x40_0000_0000
  {
    var v := d.DateTime2ParseValue(data).value.value;
    var p := BigEndianValue(data[..5]);
    DivModUnique(p - DatetimefIntOffset, Uint64Modulus, -1, p - DatetimefIntOffset + Uint64Modulus);
    var packed := DateTime2Packed(v.year, v.month, v.day, v.hour, v.minute, v.second);
    assert packed >= Uint64Modulus - DatetimefIntOffset;
    assert packed < (v.year + 1) * 13 * 0x40_0000;
  }
}
