/**
 * Field descriptors for the temporal column types of MySQL row-based binlog
 * events: the legacy fixed-width YEAR, TIMESTAMP, DATETIME, DATE and TIME
 * encodings, and the "v2" TIME2, TIMESTAMP2 and DATETIME2 encodings that
 * carry a fractional-second part of 0 to 3 bytes.
 *
 * A right shift `x >> k` of an unsigned Go integer is written `x / 2^k`, and
 * an OR of bytes shifted into disjoint bit lanes is written as their sum.
 */
module TemporalFields {
  import opened Common
  import opened Bytes
  import BigEndian
  import LittleEndian
  import opened FieldDescriptors
  import opened Arithmetic

  // ---------------------------------------------------------------------
  // Legacy fixed-width encodings
  // ---------------------------------------------------------------------

  /** The decimal number yyyymmddhhmmss that a legacy DATETIME stores. */
  function DecimalDateTime(year: int, month: int, day: int,
                           hour: int, minute: int, second: int): int
  {
    ((((year * 100 + month) * 100 + day) * 100 + hour) * 100 + minute) * 100 + second
  }

  /** `uint32(b[0]) | uint32(b[1])<<8 | uint32(b[2])<<16`, the packed
      integer of DATE and TIME. */
  function Compose24(b: seq<Byte>): (i: nat)
    requires |b| >= 3
    ensures i == LittleEndianValue(b[..3])
    ensures i < 0x100_0000
  {
    LittleEndianValue3(b);
    b[0] as int + b[1] as int * 0x100 + b[2] as int * 0x1_0000
  }

  /** x's last two decimal digit pairs split off: x = hi·10^4 + mid·100 + lo. */
  lemma SplitDecimal(x: nat)
    ensures x == (x / 10000) * 10000 + ((x % 10000) / 100) * 100 + x % 100
  {
    assert x % 10000 == ((x % 10000) / 100) * 100 + (x % 10000) % 100;
    assert (x % 10000) % 100 == x % 100;
  }

  /** DATE's bit fields reassemble its packed integer. */
  lemma SplitDate(i: nat)
    ensures i == (i / (16 * 32)) * 512 + (i / 32 % 16) * 32 + i % 32
  {
    assert i == (i / 32) * 32 + i % 32;
    assert i / 32 == (i / 32 / 16) * 16 + i / 32 % 16;
    assert i / 32 / 16 == i / 512;
  }

  /** YEAR: one byte counting years from 1900; month, day and time are 0. */
  function DecodeYear(b: seq<Byte>): (v: Value)
    requires |b| >= 1
    ensures v.DateArgs? && 1900 <= v.year <= 2155
    ensures v.month == 0 && v.day == 0 && v.hour == 0 && v.minute == 0
    ensures v.second == 0 && v.nanosecond == 0
  {
    DateArgs(b[0] as int + 1900, 0, 0, 0, 0, 0, 0)
  }

  /** TIMESTAMP: little-endian unsigned seconds since the Unix epoch. */
  function DecodeTimestamp(b: seq<Byte>): (v: Value)
    requires |b| >= 4
    ensures v.UnixTime? && 0 <= v.sec < 0x1_0000_0000 && v.nsec == 0
  {
    UnixTime(LittleEndian.Uint32(b), 0)
  }

  /** DATETIME: a little-endian uint64 holding the decimal yyyymmddhhmmss. */
  function DecodeDateTime(b: seq<Byte>): (v: Value)
    requires |b| >= 8
    ensures v.DateArgs? && v.nanosecond == 0 && 0 <= v.year
    ensures 0 <= v.month < 100 && 0 <= v.day < 100
    ensures 0 <= v.hour < 100 && 0 <= v.minute < 100 && 0 <= v.second < 100
    ensures DecimalDateTime(v.year, v.month, v.day, v.hour, v.minute, v.second)
            == LittleEndian.Uint64(b)
  {
    var val := LittleEndian.Uint64(b);
    var d := val / 1000000;
    var t := val % 1000000;
    SplitDecimal(d);
    SplitDecimal(t);
    DateArgs(d / 10000, (d % 10000) / 100, d % 100,
             t / 10000, (t % 10000) / 100, t % 100, 0)
  }

  /** DATE: year·512 + month·32 + day in 3 little-endian bytes; 0 is the
      zero date "0000-00-00". */
  function DecodeDate(b: seq<Byte>): (v: Value)
    requires |b| >= 3
    ensures v == ZeroDate <==> Compose24(b) == 0
    ensures v != ZeroDate ==>
              && v.DateText?
              && 0 <= v.year < 0x8000 && 0 <= v.month < 16 && 0 <= v.day < 32
              && v.year * 512 + v.month * 32 + v.day == Compose24(b)
  {
    var i := Compose24(b);
    SplitDate(i);
    if i == 0 then ZeroDate
    else DateText(i / (16 * 32), i / 32 % 16, i % 32)
  }

  /** TIME: hour·10000 + minute·100 + second in 3 little-endian bytes; 0 is
      the zero time "00:00:00". */
  function DecodeTime(b: seq<Byte>): (v: Value)
    requires |b| >= 3
    ensures v == ZeroTime <==> Compose24(b) == 0
    ensures v != ZeroTime ==>
              && v.TimeText?
              && 0 <= v.hour < 1678 && 0 <= v.minute < 100 && 0 <= v.second < 100
              && v.hour * 10000 + v.minute * 100 + v.second == Compose24(b)
  {
    var i := Compose24(b);
    SplitDecimal(i);
    if i == 0 then ZeroTime
    else TimeText(i / 10000, (i % 10000) / 100, i % 100)
  }

  function NewYearFieldDescriptor(nullable: NullableColumn): (d: FixedLengthFieldDescriptor)
    ensures ValidFixedLength(d) && d.size == 1
    ensures d.fieldType == Year && d.isNullable == nullable
    ensures d.decode == DecodeYear
  {
    FixedLengthFieldDescriptor(Year, nullable, 1, DecodeYear)
  }

  function NewTimestampFieldDescriptor(nullable: NullableColumn): (d: FixedLengthFieldDescriptor)
    ensures ValidFixedLength(d) && d.size == 4
    ensures d.fieldType == Timestamp && d.isNullable == nullable
    ensures d.decode == DecodeTimestamp
  {
    FixedLengthFieldDescriptor(Timestamp, nullable, 4, DecodeTimestamp)
  }

  function NewDateTimeFieldDescriptor(nullable: NullableColumn): (d: FixedLengthFieldDescriptor)
    ensures ValidFixedLength(d) && d.size == 8
    ensures d.fieldType == DateTime && d.isNullable == nullable
    ensures d.decode == DecodeDateTime
  {
    FixedLengthFieldDescriptor(DateTime, nullable, 8, DecodeDateTime)
  }

  function NewDateFieldDescriptor(nullable: NullableColumn): (d: FixedLengthFieldDescriptor)
    ensures ValidFixedLength(d) && d.size == 3
    ensures d.fieldType == Date && d.isNullable == nullable
    ensures d.decode == DecodeDate
  {
    FixedLengthFieldDescriptor(Date, nullable, 3, DecodeDate)
  }

  function NewTimeFieldDescriptor(nullable: NullableColumn): (d: FixedLengthFieldDescriptor)
    ensures ValidFixedLength(d) && d.size == 3
    ensures d.fieldType == Time && d.isNullable == nullable
    ensures d.decode == DecodeTime
  {
    FixedLengthFieldDescriptor(Time, nullable, 3, DecodeTime)
  }

  // ---------------------------------------------------------------------
  // v2 encodings with fractional seconds
  // ---------------------------------------------------------------------

  /** Equivalent to MySQL's DATETIMEF_INT_OFS. */
  const DatetimefIntOffset := 0x80_0000_0000

  const Uint64Modulus := 0x1_0000_0000_0000_0000

  function Pow10(k: nat): (r: nat)
  {
    if k == 0 then 1 else 10 * Pow10(k - 1)
  }

  /** Bytes of fraction stored after the fixed part, by precision. */
  function ExtraBytes(precision: int): (n: nat)
    requires 0 <= precision <= 6
    ensures n == (precision + 1) / 2
  {
    if precision == 0 then 0
    else if precision <= 2 then 1
    else if precision <= 4 then 2
    else 3
  }

  /** Microseconds per unit of the stored fraction: 10^(6 - 2·extra). */
  function FractionScale(precision: int): nat
    requires 0 <= precision <= 6
  {
    Pow10(6 - 2 * ExtraBytes(precision))
  }

  /** The per-precision scaling of `readData` is the uniform
      FractionScale(p) · (two's-complement value of the fraction bytes). */
  lemma FractionScaling(precision: int, msecBytes: seq<Byte>)
    requires 0 <= precision <= 6 && |msecBytes| == ExtraBytes(precision)
    ensures FractionScale(precision) * SignedBigEndian(msecBytes) ==
            match precision
            case 0 => 0
            case 1 | 2 => BigEndian.Int8(msecBytes) * 10000
            case 3 | 4 => BigEndian.Int16(msecBytes) * 100
            case _ => BigEndian.Int24(msecBytes)
  {
    assert msecBytes[..|msecBytes|] == msecBytes;
    if precision == 0 {
      assert msecBytes == [];
    }
  }

  /** TIME2's three fields reassemble the low 22 bits of the packed value. */
  lemma SplitTime2(hms: nat)
    ensures Time2Packed((hms / 0x1000) % 0x400, (hms / 0x40) % 0x40, hms % 0x40)
            == hms % 0x40_0000
  {
    var low := hms % 0x1000;
    assert hms % 0x40_0000 == ((hms / 0x1000) % 0x400) * 0x1000 + low;
    assert low == ((hms / 0x40) % 0x40) * 0x40 + hms % 0x40;
  }

  /** DATETIME2's fields reassemble the value they were cut from. */
  lemma SplitDateTime2(x: nat)
    ensures var ymd, hms := x / 0x2_0000, x % 0x2_0000;
            DateTime2Packed(ymd / 0x20 / 13, ymd / 0x20 % 13, ymd % 0x20,
                            hms / 0x1000, (hms / 0x40) % 0x40, hms % 0x40) == x
  {
    var ymd, hms := x / 0x2_0000, x % 0x2_0000;
    DivModUnique(x, 0x2_0000, ymd, hms);
    assert ymd == (ymd / 0x20) * 0x20 + ymd % 0x20;
    assert ymd / 0x20 == (ymd / 0x20 / 13) * 13 + ymd / 0x20 % 13;
    SplitTime2(hms);
    DivModUnique(hms, 0x40_0000, 0, hms);
  }

  /** The errors `init` reports for a metadata slice, in the order it checks. */
  function InitError(metadata: seq<Byte>): Option<Error>
  {
    if |metadata| < 1 then Some(MetadataTooShort)
    else if metadata[0] > 6 then Some(InvalidPrecision)
    else None
  }

  /** TIME2's 24-bit layout: hour in bits 12..21, minute 6..11, second 0..5. */
  function Time2Packed(hour: int, minute: int, second: int): int
  {
    hour * 0x1000 + minute * 0x40 + second
  }

  /** DATETIME2's 39-bit layout below the offset: year·13 + month in bits
      22..38, day 17..21, hour 12..16, minute 6..11, second 0..5. */
  function DateTime2Packed(year: int, month: int, day: int,
                           hour: int, minute: int, second: int): int
  {
    ((year * 13 + month) * 0x20 + day) * 0x2_0000 + Time2Packed(hour, minute, second)
  }

  /** What `readData` returns: the fixed part, the fraction in
      microseconds, and the bytes after the value. */
  datatype UsecData = UsecData(fixedBytes: seq<Byte>, msec: int, remaining: seq<Byte>)

  /**
   * The state shared by the TIME2, TIMESTAMP2 and DATETIME2 descriptors
   * (Go's `usecTemporalFieldDescriptor`, embedded in each of them).  `Init`
   * assigns it once; afterwards it is only read.
   */
  class UsecTemporalFieldDescriptor {
    var fieldType: FieldType
    var isNullable: NullableColumn
    var microSecondPrecision: Byte
    var fixedSize: nat
    var neededBytes: nat

    /** The precision is legal and the value width accounts for its fraction. */
    ghost predicate Valid()
      reads this
    {
      microSecondPrecision <= 6
      && neededBytes == fixedSize + ExtraBytes(microSecondPrecision)
    }

    /** The zero value a Go constructor allocates before calling `init`. */
    constructor ()
      ensures fieldType == Decimal && isNullable == NotNullable
      ensures microSecondPrecision == 0 && fixedSize == 0 && neededBytes == 0
      ensures Valid()
    {
      fieldType := Decimal;
      isNullable := NotNullable;
      microSecondPrecision := 0;
      fixedSize := 0;
      neededBytes := 0;
    }

    /** Records the type tag and nullability, then consumes the precision
        byte of the metadata and sizes the value from it. */
    method Init(fieldType: FieldType, nullable: NullableColumn, fixedSize: nat,
                metadata: seq<Byte>)
      returns (remaining: seq<Byte>, err: Option<Error>)
      modifies this
      ensures this.fieldType == fieldType && isNullable == nullable
      ensures err == InitError(metadata)
      ensures err == None ==>
                && Valid() && remaining == metadata[1..]
                && this.fixedSize == fixedSize && microSecondPrecision == metadata[0]
                && neededBytes == fixedSize + ExtraBytes(metadata[0])
      ensures err == Some(MetadataTooShort) ==>
                && remaining == []
                && microSecondPrecision == old(microSecondPrecision)
                && this.fixedSize == old(this.fixedSize) && neededBytes == old(neededBytes)
      ensures err == Some(InvalidPrecision) ==>
                && remaining == []
                && this.fixedSize == fixedSize && microSecondPrecision == metadata[0]
                && neededBytes == fixedSize
    {
      this.fieldType := fieldType;
      isNullable := nullable;

      if |metadata| < 1 {
        return [], Some(MetadataTooShort);
      }

      this.fixedSize := fixedSize;
      neededBytes := fixedSize;
      microSecondPrecision := metadata[0];
      match microSecondPrecision {
        case 0 =>
        case 1 | 2 =>
          neededBytes := neededBytes + 1;
        case 3 | 4 =>
          neededBytes := neededBytes + 2;
        case 5 | 6 =>
          neededBytes := neededBytes + 3;
        case _ =>
          return [], Some(InvalidPrecision);
      }

      return metadata[1..], None;
    }

    /** Takes one value's bytes off data and scales its fraction to
        microseconds. */
    function ReadData(data: seq<Byte>): (r: Result<UsecData>)
      reads this
      requires Valid()
      ensures r.Err? <==> |data| < neededBytes
      ensures r.Err? ==> r.error == TruncatedBuffer
      ensures r.Ok? ==> r.value.fixedBytes == data[..fixedSize]
      ensures r.Ok? ==> r.value.remaining == data[neededBytes..]
      ensures r.Ok? ==> |r.value.remaining| == |data| - neededBytes
      ensures r.Ok? ==>
                r.value.msec == FractionScale(microSecondPrecision)
                                * SignedBigEndian(data[fixedSize..neededBytes])
    {
      match ReadSlice(data, neededBytes)
      case Err(e) => Err(e)
      case Ok((raw, remaining)) =>
        assert raw == data[..neededBytes];
        var msecBytes := raw[fixedSize..];
        assert msecBytes == data[fixedSize..neededBytes];
        var msec :=
          match microSecondPrecision
          case 0 => 0
          case 1 | 2 => BigEndian.Int8(msecBytes) * 10000
          case 3 | 4 => BigEndian.Int16(msecBytes) * 100
          case 5 | 6 => BigEndian.Int24(msecBytes)
          case _ => 0;
        FractionScaling(microSecondPrecision, msecBytes);
        Ok(UsecData(raw[..fixedSize], msec, remaining))
    }

    /** TIME2: hour, minute and second unpacked from the 3-byte fixed part,
        with no sign or offset handling. */
    function Time2ParseValue(data: seq<Byte>): (r: Result<Parsed>)
      reads this
      requires Valid() && fixedSize == 3
      ensures r.Err? <==> |data| < neededBytes
      ensures r.Err? ==> r.error == TruncatedBuffer
      ensures r.Ok? ==> r.value.remaining == data[neededBytes..]
      ensures r.Ok? ==>
                var v := r.value.value;
                && v.DateArgs? && v.year == 0 && v.month == 0 && v.day == 0
                && 0 <= v.hour < 1024 && 0 <= v.minute < 64 && 0 <= v.second < 64
                && Time2Packed(v.hour, v.minute, v.second) == BigEndianValue(data[..3]) % 0x40_0000
                && v.nanosecond == 1000 * ReadData(data).value.msec
    {
      match ReadData(data)
      case Err(e) => Err(e)
      case Ok(UsecData(secBytes, msec, remaining)) =>
        assert secBytes[..3] == data[..3];
        BigEndianValue3(secBytes);
        var hms := secBytes[2] as int + secBytes[1] as int * 0x100 + secBytes[0] as int * 0x1_0000;
        SplitTime2(hms);
        var hour := (hms / 0x1000) % 0x400;
        var minute := (hms / 0x40) % 0x40;
        var second := hms % 0x40;
        Ok(Parsed(DateArgs(0, 0, 0, hour, minute, second, msec * 1000), remaining))
    }

    /** TIMESTAMP2: big-endian signed 32-bit seconds, plus the fraction. */
    function Timestamp2ParseValue(data: seq<Byte>): (r: Result<Parsed>)
      reads this
      requires Valid() && fixedSize == 4
      ensures r.Err? <==> |data| < neededBytes
      ensures r.Err? ==> r.error == TruncatedBuffer
      ensures r.Ok? ==> r.value.remaining == data[neededBytes..]
      ensures r.Ok? ==>
                var v := r.value.value;
                && v.UnixTime?
                && -0x8000_0000 <= v.sec < 0x8000_0000
                && v.sec % 0x1_0000_0000 == BigEndianValue(data[..4])
                && v.nsec == 1000 * ReadData(data).value.msec
    {
      match ReadData(data)
      case Err(e) => Err(e)
      case Ok(UsecData(secBytes, msec, remaining)) =>
        Pow256Table();
        assert secBytes[..4] == data[..4];
        var sec := BigEndian.Int32(secBytes);
        var u := BigEndianValue(secBytes[..4]);
        DivModUnique(sec, 0x1_0000_0000, if sec < 0 then -1 else 0, u);
        Ok(Parsed(UnixTime(sec, msec * 1000), remaining))
    }

    /** DATETIME2: the 5-byte fixed part minus DATETIMEF_INT_OFS, in uint64
        arithmetic, unpacked into calendar fields. */
    function DateTime2ParseValue(data: seq<Byte>): (r: Result<Parsed>)
      reads this
      requires Valid() && fixedSize == 5
      ensures r.Err? <==> |data| < neededBytes
      ensures r.Err? ==> r.error == TruncatedBuffer
      ensures r.Ok? ==> r.value.remaining == data[neededBytes..]
      ensures r.Ok? ==>
                var v := r.value.value;
                && v.DateArgs? && 0 <= v.year
                && 0 <= v.month < 13 && 0 <= v.day < 32
                && 0 <= v.hour < 32 && 0 <= v.minute < 64 && 0 <= v.second < 64
                && DateTime2Packed(v.year, v.month, v.day, v.hour, v.minute, v.second)
                   == (BigEndianValue(data[..5]) - DatetimefIntOffset) % Uint64Modulus
                && v.nanosecond == 1000 * ReadData(data).value.msec
    {
      match ReadData(data)
      case Err(e) => Err(e)
      case Ok(UsecData(dtBytes, msec, remaining)) =>
        assert dtBytes[..5] == data[..5];
        var ymdhms := (BigEndian.Uint40(dtBytes) - DatetimefIntOffset) % Uint64Modulus;
        var ymd := ymdhms / 0x2_0000;
        var ym := ymd / 0x20;
        var hms := ymdhms % 0x2_0000;
        var day := ymd % 0x20;
        var month := ym % 13;
        var year := ym / 13;
        var second := hms % 0x40;
        var minute := (hms / 0x40) % 0x40;
        var hour := hms / 0x1000;
        SplitDateTime2(ymdhms);
        Ok(Parsed(DateArgs(year, month, day, hour, minute, second, msec * 1000), remaining))
    }
  }

  method NewTime2FieldDescriptor(nullable: NullableColumn, metadata: seq<Byte>)
    returns (fd: UsecTemporalFieldDescriptor?, remaining: seq<Byte>, err: Option<Error>)
    ensures err == InitError(metadata)
    ensures err == None ==>
              && fd != null && fresh(fd) && fd.Valid()
              && fd.fieldType == Time2 && fd.isNullable == nullable
              && fd.fixedSize == 3 && fd.microSecondPrecision == metadata[0]
              && remaining == metadata[1..]
    ensures err != None ==> fd == null && remaining == []
  {
    var t := new UsecTemporalFieldDescriptor();
    remaining, err := t.Init(Time2, nullable, 3, metadata);
    if err != None {
      return null, [], err;
    }
    return t, remaining, None;
  }

  method NewTimestamp2FieldDescriptor(nullable: NullableColumn, metadata: seq<Byte>)
    returns (fd: UsecTemporalFieldDescriptor?, remaining: seq<Byte>, err: Option<Error>)
    ensures err == InitError(metadata)
    ensures err == None ==>
              && fd != null && fresh(fd) && fd.Valid()
              && fd.fieldType == Timestamp2 && fd.isNullable == nullable
              && fd.fixedSize == 4 && fd.microSecondPrecision == metadata[0]
              && remaining == metadata[1..]
    ensures err != None ==> fd == null && remaining == []
  {
    var t := new UsecTemporalFieldDescriptor();
    remaining, err := t.Init(Timestamp2, nullable, 4, metadata);
    if err != None {
      return null, [], err;
    }
    return t, remaining, None;
  }

  method NewDateTime2FieldDescriptor(nullable: NullableColumn, metadata: seq<Byte>)
    returns (fd: UsecTemporalFieldDescriptor?, remaining: seq<Byte>, err: Option<Error>)
    ensures err == InitError(metadata)
    ensures err == None ==>
              && fd != null && fresh(fd) && fd.Valid()
              && fd.fieldType == DateTime2 && fd.isNullable == nullable
              && fd.fixedSize == 5 && fd.microSecondPrecision == metadata[0]
              && remaining == metadata[1..]
    ensures err != None ==> fd == null && remaining == []
  {
    var d := new UsecTemporalFieldDescriptor();
    remaining, err := d.Init(DateTime2, nullable, 5, metadata);
    if err != None {
      return null, [], err;
    }
    return d, remaining, None;
  }
}
