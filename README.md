# Binlog temporal field decoders

A Dafny model of `database/binlog/temporal_fields.go` from godropbox. It
decodes temporal column values out of MySQL row-based binlog events. Two
groups of descriptors are covered:

- The legacy fixed-width descriptors: YEAR (1 byte), TIMESTAMP (4 bytes,
  little-endian seconds), DATETIME (8 bytes, little-endian decimal
  `yyyymmddhhmmss`), DATE (3 bytes, little-endian bit fields) and TIME
  (3 bytes, little-endian decimal `hhmmss`).
- The "v2" descriptors with fractional seconds: TIME2, TIMESTAMP2 and
  DATETIME2. They share a base that reads a precision byte from the column
  metadata, sizes the value, and scales the 0 to 3 fraction bytes to
  microseconds.

The layouts are those of the MySQL Internals manual page "Date and Time
Data Type Representation".

Modules and files:

- `common.dfy` (`Common`): the three error kinds (`TruncatedBuffer`,
  `MetadataTooShort`, `InvalidPrecision`), plus `Option` and `Result`.
- `bytes.dfy` (`Bytes`): bytes as integers in [0, 256). It defines unsigned
  big- and little-endian values, two's-complement values, their encoders with
  both round trips, and `ReadSlice`, the cursor step.
- `endian.dfy` (`BigEndian`, `LittleEndian`): the fixed-width readers the
  source calls.
- `field_descriptor.dfy` (`FieldDescriptors`): the type tag, the
  nullability flag, and the decoded `Value`. It also holds the fixed-length
  descriptor built by `newFixedLengthFieldDescriptor`, and its `ParseValue`.
- `arith.dfy` (`Arithmetic`): uniqueness of Euclidean division, used by the
  unpacking proofs.
- `temporal_fields.dfy` (`TemporalFields`): the five legacy decode closures
  and the constructors that wrap them. It also holds the class
  `UsecTemporalFieldDescriptor`, whose `Init` is imperative, its `ReadData`,
  the three v2 `ParseValue` functions, and the three v2 constructors.
- `temporal_properties.dfy` (`TemporalProperties`): a packer for every
  encoding, written the way MySQL lays the fields out. Each packer has a
  lemma saying that decoding through the descriptor gives the packed fields
  back and leaves the rest of the buffer untouched.
- `temporal_examples.dfy` (`TemporalExamples`): concrete byte strings and
  what they decode to, and a client method that shows the construction
  outcomes.

Modelling choices:

- Go's `interface{}` result is the datatype `Value`:
  - `DateArgs` is the argument tuple passed to `time.Date(..., time.UTC)`.
  - `UnixTime` is the pair passed to `time.Unix`.
  - `DateText` and `TimeText` are the components that DATE and TIME format
    with `fmt.Sprintf`.
  - `ZeroDate` and `ZeroTime` are the literal sentinels `"0000-00-00"` and
    `"00:00:00"`.
- Go integers are unbounded `int` here. The signed readers
  `BigEndian.Int8`, `Int16`, `Int24` and `Int32` can give negative values,
  so the scaled fraction (`msec * 10000`, `msec * 100`, `msec * 1000`) and
  the TIMESTAMP2 seconds can be negative. None of these products leaves
  int64. The only operation that can overflow is DATETIME2's
  `Uint40(...) - datetimefIntOffset`, which is uint64 arithmetic. It is
  modelled as `(P - 2^39) % 2^64`, so a packed value below the offset wraps,
  as in Go (`DateTime2BelowOffsetWraps`). Every `/`, `%` and `>>` in the
  file has an unsigned operand (uint32 for DATE and TIME, uint64 for
  DATETIME, TIME2 and DATETIME2). Go's truncating division and Dafny's
  Euclidean division therefore agree on every input.
- A right shift `x >> k` of an unsigned value is written as `x / 2^k`. An OR
  of bytes shifted into disjoint bit lanes is written as their sum.
  `Compose24` and `BigEndianValue3` tie those sums to the endian readers.
- `usecTemporalFieldDescriptor` is a class. Its fields are assigned by
  `Init`, which updates `neededBytes` step by step in the source's switch.
  Go embeds this struct in three wrapper structs with different
  `ParseValue` methods. The model puts all three `ParseValue` functions on
  the one class, and each requires the `fixedSize` that its constructor
  sets (3, 4 or 5).
- TIME2 applies no sign or offset handling. The hour is `(hms >> 12) % 1024`,
  which keeps bits 12 to 21 of the fixed part. In MySQL's TIME2 layout,
  bit 23 is the sign, bit 22 is reserved, and bits 12 to 21 hold the hour.
  MySQL stores a non-negative time with the offset 0x800000, which is
  exactly bit 23, so it decodes to the same fields (`Time2IgnoresSignBit`).
  A negative time decodes to a large hour (`Time2NegativeExample`).
- In DATE, 1991-02-17 packs to `0x0F8E51` (`DateExample`).
- `TemporalExamples.ConstructionExamples` is a client method with no
  contract of its own. Its assertions show three outcomes of the v2
  constructors:
  - precision 7 is rejected with InvalidPrecision;
  - empty metadata is rejected with MetadataTooShort;
  - metadata `[3, 9]` gives a TIMESTAMP2 descriptor that needs 6 bytes and
    leaves `[9]` unread.

## Model

| member | source | states |
|---|---|---|
| Bytes.ReadSlice | database/binlog/temporal_fields.go:162-165 | Assumed contract of `readSlice`. It succeeds iff at least n bytes remain. On success the prefix has length n and prefix + rest == data. Otherwise it fails with TruncatedBuffer. |
| Bytes.BigEndianValue | database/binlog/temporal_fields.go:220 | An n-byte big-endian value is below 256^n. |
| Bytes.EncodeBigEndian | database/binlog/temporal_fields.go:312 | Encoding v < 256^n gives n bytes whose big-endian value is v. |
| Bytes.BigEndianEncodeOfValue | database/binlog/temporal_fields.go:312 | Encoding the value of any byte string gives that byte string back, so the value determines the bytes. |
| Bytes.LittleEndianValue | database/binlog/temporal_fields.go:53 | An n-byte little-endian value is below 256^n. |
| Bytes.EncodeLittleEndian | database/binlog/temporal_fields.go:66 | Encoding v < 256^n gives n bytes whose little-endian value is v. |
| Bytes.LittleEndianEncodeOfValue | database/binlog/temporal_fields.go:66 | Encoding the little-endian value of any byte string gives it back. |
| Bytes.BigEndianValue3 | database/binlog/temporal_fields.go:220 | `b[2] \| b[1]<<8 \| b[0]<<16` is the big-endian value of the first three bytes. |
| Bytes.LittleEndianValue3 | database/binlog/temporal_fields.go:88 | `b[0] \| b[1]<<8 \| b[2]<<16` is the little-endian value of the first three bytes. |
| Bytes.SignedBigEndian | database/binlog/temporal_fields.go:174-178 | The two's-complement reading lies in [-256^n/2, 256^n/2). It equals the unsigned value, or that value minus 256^n. |
| Bytes.EncodeSignedBigEndian | database/binlog/temporal_fields.go:267 | Any v in the signed n-byte range encodes to n bytes whose two's-complement value is v. |
| BigEndian.Int8 | database/binlog/temporal_fields.go:174 | Assumed: a signed 8-bit value in [-128, 128) that is congruent to the byte mod 256. |
| BigEndian.Int16 | database/binlog/temporal_fields.go:176 | Assumed: the first 2 bytes as a signed value in [-2^15, 2^15). |
| BigEndian.Int24 | database/binlog/temporal_fields.go:178 | Assumed: the first 3 bytes as a signed value in [-2^23, 2^23). |
| BigEndian.Int32 | database/binlog/temporal_fields.go:267 | Assumed: the first 4 bytes as a signed value in [-2^31, 2^31). |
| BigEndian.Uint40 | database/binlog/temporal_fields.go:312 | Assumed: the first 5 bytes as an unsigned value below 2^40. |
| LittleEndian.Uint32 | database/binlog/temporal_fields.go:53 | Assumed: the first 4 bytes little-endian, below 2^32. |
| LittleEndian.Uint64 | database/binlog/temporal_fields.go:66 | Assumed: the first 8 bytes little-endian, below 2^64. |
| FieldDescriptors.ParseValue | database/binlog/temporal_fields.go:36-42 | Assumed contract of the descriptor that `newFixedLengthFieldDescriptor` builds. It fails with TruncatedBuffer iff fewer than `size` bytes remain. Otherwise it consumes exactly `size` bytes, applies the closure to them, and returns the other `|data| - size` bytes. |
| TemporalFields.Compose24 | database/binlog/temporal_fields.go:88 | The DATE/TIME packed integer is the little-endian value of the first 3 bytes, below 2^24. |
| TemporalFields.DecodeYear | database/binlog/temporal_fields.go:40-42 | The year lies in [1900, 2155], and month, day, time and nanoseconds are all 0. |
| TemporalFields.DecodeTimestamp | database/binlog/temporal_fields.go:52-54 | Seconds in [0, 2^32) and 0 nanoseconds. |
| TemporalFields.DecodeDateTime | database/binlog/temporal_fields.go:65-78 | Every field except the year is below 100, and nanoseconds are 0. The fields, read as decimal digit pairs, rebuild the uint64 that was read. |
| TemporalFields.DecodeDate | database/binlog/temporal_fields.go:86-93 | The zero date is returned iff the packed integer is 0. Otherwise the month and day are below 16 and 32, and year·512 + month·32 + day is the packed integer. |
| TemporalFields.DecodeTime | database/binlog/temporal_fields.go:102-109 | The zero time is returned iff the packed integer is 0. Otherwise the minute and second are below 100, and hour·10000 + minute·100 + second is the packed integer. |
| TemporalFields.SplitDate | database/binlog/temporal_fields.go:92 | `i/(16*32)`, `i/32%16` and `i%32` reassemble i. |
| TemporalFields.NewYearFieldDescriptor | database/binlog/temporal_fields.go:35-43 | A 1-byte YEAR descriptor whose closure accepts every 1-byte input, with the given nullability. Its closure is exactly `DecodeYear`. |
| TemporalFields.NewTimestampFieldDescriptor | database/binlog/temporal_fields.go:47-55 | A 4-byte TIMESTAMP descriptor whose closure accepts every 4-byte input. Its closure is exactly `DecodeTimestamp`. |
| TemporalFields.NewDateTimeFieldDescriptor | database/binlog/temporal_fields.go:60-79 | An 8-byte DATETIME descriptor whose closure accepts every 8-byte input. Its closure is exactly `DecodeDateTime`. |
| TemporalFields.NewDateFieldDescriptor | database/binlog/temporal_fields.go:81-95 | A 3-byte DATE descriptor whose closure accepts every 3-byte input. Its closure is exactly `DecodeDate`. |
| TemporalFields.NewTimeFieldDescriptor | database/binlog/temporal_fields.go:97-111 | A 3-byte TIME descriptor whose closure accepts every 3-byte input. Its closure is exactly `DecodeTime`. |
| TemporalFields.ExtraBytes | database/binlog/temporal_fields.go:140-151 | The fraction width for precision p is (p + 1) / 2. |
| TemporalFields.FractionScaling | database/binlog/temporal_fields.go:169-179 | The per-precision switch (×10000 of Int8, ×100 of Int16, Int24 as is, 0 for p = 0) equals 10^(6-2·extra) times the two's-complement value of the fraction bytes. |
| TemporalFields.SplitTime2 | database/binlog/temporal_fields.go:220-223 | TIME2's hour, minute and second reassemble the low 22 bits of hms. |
| TemporalFields.SplitDateTime2 | database/binlog/temporal_fields.go:314-324 | DATETIME2's six fields, repacked, give back the value they were cut from. |
| TemporalFields.UsecTemporalFieldDescriptor.constructor | database/binlog/temporal_fields.go:192 | The zero value that Go's `&time2FieldDescriptor{}` allocates already satisfies the descriptor invariant. |
| TemporalFields.UsecTemporalFieldDescriptor.Init | database/binlog/temporal_fields.go:122-154 | Type and nullability are always recorded. Empty metadata gives MetadataTooShort, with nothing else changed. A first byte above 6 gives InvalidPrecision. Otherwise the remainder is metadata[1..], the precision is metadata[0], and neededBytes = fixedSize + ExtraBytes(precision). No error path returns a remainder. |
| TemporalFields.UsecTemporalFieldDescriptor.ReadData | database/binlog/temporal_fields.go:156-182 | It fails with TruncatedBuffer iff fewer than neededBytes remain. Otherwise: the fixed part is data[..fixedSize]; the remainder is data[neededBytes..], of length \|data\| - neededBytes; and msec is 10^(6-2·extra) times the signed value of data[fixedSize..neededBytes]. |
| TemporalFields.UsecTemporalFieldDescriptor.Time2ParseValue | database/binlog/temporal_fields.go:210-233 | Truncation behaves as in ReadData. Year, month and day are 0. The hour is below 1024, the minute and second below 64. Repacked, they equal the fixed part mod 2^22. Nanoseconds are 1000 · msec. |
| TemporalFields.UsecTemporalFieldDescriptor.Timestamp2ParseValue | database/binlog/temporal_fields.go:257-270 | Truncation behaves as in ReadData. Seconds lie in the int32 range and are congruent mod 2^32 to the 4 fixed bytes. Nanoseconds are 1000 · msec. |
| TemporalFields.UsecTemporalFieldDescriptor.DateTime2ParseValue | database/binlog/temporal_fields.go:302-335 | Truncation behaves as in ReadData. The month is below 13, the day and hour below 32, the minute and second below 64, for every input. Repacked, the fields equal (Uint40 - 0x8000000000) mod 2^64. Nanoseconds are 1000 · msec. |
| TemporalFields.NewTime2FieldDescriptor | database/binlog/temporal_fields.go:188-204 | The error is that of Init. On success it returns a fresh, valid TIME2 descriptor with fixedSize 3, the metadata's precision, and remainder metadata[1..]. On error it returns no descriptor and no remainder. |
| TemporalFields.NewTimestamp2FieldDescriptor | database/binlog/temporal_fields.go:238-255 | The same, for TIMESTAMP2 with fixedSize 4. |
| TemporalFields.NewDateTime2FieldDescriptor | database/binlog/temporal_fields.go:282-300 | The same, for DATETIME2 with fixedSize 5. |
| TemporalProperties.PackYear | database/binlog/temporal_fields.go:41 | A YEAR in [1900, 2155] packs to one byte. |
| TemporalProperties.YearRoundTrip | database/binlog/temporal_fields.go:35-43 | Parsing a packed year followed by any bytes gives that year, with month, day and time 0, and returns exactly the following bytes. |
| TemporalProperties.YearDecodeIsPacked | database/binlog/temporal_fields.go:41 | Every YEAR byte is the packing of the year it decodes to. |
| TemporalProperties.TimestampRoundTrip | database/binlog/temporal_fields.go:47-55 | Any seconds value in [0, 2^32), written as 4 little-endian bytes, parses back to (seconds, 0) and returns the following bytes. |
| TemporalProperties.DecimalDateTimeDigits | database/binlog/temporal_fields.go:66-75 | The source's divisions and remainders pick each field back out of the decimal yyyymmddhhmmss number. |
| TemporalProperties.DateTimeRoundTrip | database/binlog/temporal_fields.go:60-79 | Fields below 100 whose decimal number fits in 64 bits, written as 8 little-endian bytes, parse back to the same fields. |
| TemporalProperties.DateRoundTrip | database/binlog/temporal_fields.go:81-95 | year·512 + month·32 + day (month < 16, day < 32), as 3 bytes, parses back to that date. It parses to the zero date exactly when all three fields are 0. |
| TemporalProperties.TimeRoundTrip | database/binlog/temporal_fields.go:97-111 | hour·10000 + minute·100 + second (minute, second < 100), as 3 bytes, parses back to that time. It parses to the zero time exactly when all three fields are 0. |
| TemporalProperties.ExtraBytesMonotone | database/binlog/temporal_fields.go:140-151 | The fraction width never decreases with precision and never exceeds 3. |
| TemporalProperties.EncodeFraction | database/binlog/temporal_fields.go:169-179 | A representable fraction encodes to exactly ExtraBytes(precision) bytes. |
| TemporalProperties.ReadDataRoundTrip | database/binlog/temporal_fields.go:156-182 | On fixed-part bytes + an encoded fraction + rest, readData returns the fixed part, the fraction in microseconds, and exactly rest. |
| TemporalProperties.Time2PackedFields | database/binlog/temporal_fields.go:220-223 | Packing hour < 1024, minute < 64, second < 64 gives a value below 2^22, from which the source's shifts and masks take the same three fields back. |
| TemporalProperties.Time2FromFixed | database/binlog/temporal_fields.go:215-232 | A TIME2 fixed part whose low 22 bits are hms decodes to the fields of hms, nanoseconds 1000·usec, and returns the rest. |
| TemporalProperties.Time2RoundTrip | database/binlog/temporal_fields.go:210-233 | A packed TIME2 value with its fraction parses back to (0, 0, 0, hour, minute, second, 1000·usec) and returns the rest. |
| TemporalProperties.Time2IgnoresSignBit | database/binlog/temporal_fields.go:220-223 | With MySQL's offset 0x800000 added, a TIME2 value still decodes to the same fields. |
| TemporalProperties.Timestamp2RoundTrip | database/binlog/temporal_fields.go:257-270 | Any int32 seconds value and fraction, encoded, parse back to (seconds, 1000·usec). |
| TemporalProperties.DateTime2PackedFields | database/binlog/temporal_fields.go:314-324 | From a packed DATETIME2 value, the source's shifts, masks and /13, %13 take each field back. |
| TemporalProperties.DateTime2FromFixed | database/binlog/temporal_fields.go:307-334 | A fixed part equal to y + 0x8000000000 decodes to the fields packed in y, and returns the rest. |
| TemporalProperties.DateTime2RoundTrip | database/binlog/temporal_fields.go:302-335 | Fields whose packing lies below 2^39, encoded with the offset and a fraction, parse back to the same fields with nanoseconds 1000·usec. |
| TemporalProperties.DateTime2BelowOffsetWraps | database/binlog/temporal_fields.go:312 | A fixed part below the offset is not rejected: the uint64 subtraction wraps, and the year comes out at 2^38 or more. |
| TemporalExamples.YearExamples | database/binlog/temporal_fields.go:41 | Bytes 0, 101 and 255 give the years 1900, 2001 and 2155. |
| TemporalExamples.DateExample | database/binlog/temporal_fields.go:88-92 | 0x0F8E51 is 1991-02-17, and three zero bytes give the zero date. |
| TemporalExamples.TimeExample | database/binlog/temporal_fields.go:104-108 | 235959 is 23:59:59, and three zero bytes give the zero time. |
| TemporalExamples.DateTimeExample | database/binlog/temporal_fields.go:65-78 | 19991231235959 gives (1999, 12, 31, 23, 59, 59). |
| TemporalExamples.Time2Example | database/binlog/temporal_fields.go:215-232 | At precision 6, 23:59:59 with fraction bytes 00 00 01 gives 23:59:59 and 1000 ns. |
| TemporalExamples.Time2NegativeExample | database/binlog/temporal_fields.go:220-223 | MySQL's -00:00:01 (0x7FFFFF) decodes to 1023:63:63, since no sign handling is applied. |
| TemporalExamples.DateTime2Example | database/binlog/temporal_fields.go:307-334 | At precision 0, 0x99A69EC780 is 2020-06-15 12:30:00. |

## Left out

- `time.Date` normalisation and `time.Unix` calendar conversion are not
  modelled. The model returns the raw argument tuples. Go would fold month 0
  or day 0 into the previous month, for example for YEAR, and would
  normalise nanoseconds outside [0, 10^9) for TIMESTAMP2.
- The `fmt.Sprintf` zero-padded formatting of DATE and TIME is not
  modelled. The model keeps the numeric components in `DateText` and
  `TimeText`.
- The `errors.New` message texts are not modelled; each error is an
  `Error` tag. Of the `mysql_proto.FieldType_*` enum, only the temporal tags
  and the zero value are kept. `NullableColumn` is an opaque two-valued flag.
- The implementations of `readSlice`, `BigEndian`, `LittleEndian`,
  `baseFieldDescriptor` and `newFixedLengthFieldDescriptor` are not part of
  this model. Their files are not here. Their contracts above (marked
  "Assumed") follow their names and how this file uses them.
- BigEndian.Int8: like all the endian readers, it assumes the helpers read
  the first n bytes of a slice that has at least n. The source always passes
  exactly n bytes.
- The `FieldDescriptor` interface and its dynamic dispatch are not modelled.
  One class stands for the three Go wrapper structs. The caller picks the
  `ParseValue` that matches the constructor used.
- TemporalFields.UsecTemporalFieldDescriptor.Time2ParseValue: requires
  fixedSize == 3, which Go's TIME2 type guarantees by construction. The same
  goes for 4 in Timestamp2ParseValue and 5 in DateTime2ParseValue.
- TemporalFields.UsecTemporalFieldDescriptor.Init: fixedSize is a `nat`.
  The source passes only the constants 3, 4 and 5.
- Negative TIME2 durations are not modelled, because the source applies no
  sign handling either.
- Go slices share their backing arrays; the model works on sequence values,
  so aliasing between the returned slices and the input is not captured.
- Concurrency is absent from the source, and descriptors are immutable
  after construction.
