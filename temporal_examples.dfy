/**
 * Concrete encodings and what the decoders make of them.
 */
module TemporalExamples {
  import opened Common
  import opened Bytes
  import opened FieldDescriptors
  import opened TemporalFields
  import opened TemporalProperties

  lemma YearExamples()
    ensures DecodeYear([0]).year == 1900
    ensures DecodeYear([101]).year == 2001
    ensures DecodeYear([255]).year == 2155
  {
  }

  /** 1991-02-17 packs to 0x0F8E51. */
  lemma DateExample()
    ensures DecodeDate([0x51, 0x8E, 0x0F]) == DateText(1991, 2, 17)
    ensures DecodeDate([0, 0, 0]) == ZeroDate
  {
    assert Compose24([0x51, 0x8E, 0x0F]) == 0x0F8E51;
  }

  lemma TimeExample()
    ensures DecodeTime([0xB7, 0x99, 0x03]) == TimeText(23, 59, 59)
    ensures DecodeTime([0, 0, 0]) == ZeroTime
  {
    assert Compose24([0xB7, 0x99, 0x03]) == 235959;
  }

  /** 19991231235959 as a little-endian uint64. */
  lemma DateTimeExample()
    ensures DecodeDateTime([0x77, 0x87, 0x3C, 0x92, 0x2E, 0x12, 0, 0])
            == DateArgs(1999, 12, 31, 23, 59, 59, 0)
  {
    var b: seq<Byte> := [0x77, 0x87, 0x3C, 0x92, 0x2E, 0x12, 0, 0];
    assert b[..8] == b;
    LittleEndianEncodeOfValue(b);
    DecimalDateTimeDigits(1999, 12, 31, 23, 59, 59);
    assert LittleEndian.Uint64(b) == 19991231235959 by {
      assert EncodeLittleEndian(19991231235959, 8) == b;
    }
  }

  /** 23:59:59.000001 at precision 6. */
  lemma Time2Example(d: UsecTemporalFieldDescriptor)
    requires d.Valid() && d.fixedSize == 3 && d.microSecondPrecision == 6
    ensures d.Time2ParseValue([0x01, 0x7E, 0xFB, 0, 0, 1])
            == Ok(Parsed(DateArgs(0, 0, 0, 23, 59, 59, 1000), []))
  {
    Pow256Table();
    var fixed: seq<Byte> := [0x01, 0x7E, 0xFB];
    var frac: seq<Byte> := [0, 0, 1];
    BigEndianValue3(fixed);
    BigEndianValue3(frac);
    BigEndianEncodeOfValue(frac);
    assert ExtraBytes(6) == 3 && FractionScale(6) == 1;
    assert EncodeFraction(6, 1) == EncodeBigEndian(1, 3) == frac;
    assert BigEndianValue(fixed) == 98043 == Time2Packed(23, 59, 59);
    Time2FromFixed(d, fixed, 98043, 1, []);
    assert fixed + EncodeFraction(d.microSecondPrecision, 1) + [] == [0x01, 0x7E, 0xFB, 0, 0, 1];
    assert (98043 / 0x1000) % 0x400 == 23 && (98043 / 0x40) % 0x40 == 59 && 98043 % 0x40 == 59;
  }

  /**
   * MySQL writes -00:00:01 as 0x800000 - 1.  With no sign handling the
   * decoder reads it as 1023:63:63.
   */
  lemma Time2NegativeExample(d: UsecTemporalFieldDescriptor)
    requires d.Valid() && d.fixedSize == 3 && d.microSecondPrecision == 0
    ensures d.Time2ParseValue([0x7F, 0xFF, 0xFF])
            == Ok(Parsed(DateArgs(0, 0, 0, 1023, 63, 63, 0), []))
  {
    Pow256Table();
    BigEndianValue3([0x7F, 0xFF, 0xFF]);
    assert [0x7F, 0xFF, 0xFF][..3] == [0x7F, 0xFF, 0xFF];
  }

  /** 2020-06-15 12:30:00 at precision 0. */
  lemma DateTime2Example(d: UsecTemporalFieldDescriptor)
    requires d.Valid() && d.fixedSize == 5 && d.microSecondPrecision == 0
    ensures d.DateTime2ParseValue([0x99, 0xA6, 0x9E, 0xC7, 0x80])
            == Ok(Parsed(DateArgs(2020, 6, 15, 12, 30, 0, 0), []))
  {
    Pow256Table();
    var p := DateTime2Packed(2020, 6, 15, 12, 30, 0) + DatetimefIntOffset;
    assert p == 0x99_A69E_C780;
    assert EncodeBigEndian(p, 5) == [0x99, 0xA6, 0x9E, 0xC7, 0x80];
    assert EncodeFraction(0, 0) == [];
    DateTime2RoundTrip(d, 2020, 6, 15, 12, 30, 0, 0, []);
    assert [0x99, 0xA6, 0x9E, 0xC7, 0x80] + [] + [] == [0x99, 0xA6, 0x9E, 0xC7, 0x80];
  }

  /** The construction outcomes a caller can rely on. */
  method ConstructionExamples()
  {
    var fd, remaining, err := NewTime2FieldDescriptor(Nullable, [7, 1]);
    assert err == Some(InvalidPrecision) && fd == null;
    fd, remaining, err := NewDateTime2FieldDescriptor(NotNullable, []);
    assert err == Some(MetadataTooShort) && fd == null;
    fd, remaining, err := NewTimestamp2FieldDescriptor(NotNullable, [3, 9]);
    assert err == None && remaining == [9];
    assert fd.neededBytes == 6;
  }
}
