/**
 * The pieces of the field-descriptor abstraction that the temporal decoders
 * use: the wire type tag, the nullability flag, the decoded value, and the
 * fixed-length descriptor built by `newFixedLengthFieldDescriptor`.
 */
module FieldDescriptors {
  import opened Common
  import opened Bytes

  /** The column types the temporal decoders are built for; Decimal is the
      tag's zero value, which a descriptor carries before `init` assigns it. */
  datatype FieldType =
    | Decimal
    | Year | Timestamp | DateTime | Date | Time
    | Time2 | Timestamp2 | DateTime2

  /** Advisory; it never changes how a value is decoded. */
  datatype NullableColumn = NotNullable | Nullable

  /**
   * What a decoder hands back in place of Go's `interface{}`.  DateArgs is
   * the argument tuple given to `time.Date(..., time.UTC)` and UnixTime the
   * pair given to `time.Unix(sec, nsec)`; neither is normalised into a
   * calendar instant.  DateText and TimeText are the components the DATE and
   * TIME decoders format with `fmt.Sprintf`; ZeroDate and ZeroTime are the
   * literal strings "0000-00-00" and "00:00:00".
   */
  datatype Value =
    | ZeroDate
    | ZeroTime
    | DateText(year: int, month: int, day: int)
    | TimeText(hour: int, minute: int, second: int)
    | DateArgs(year: int, month: int, day: int,
               hour: int, minute: int, second: int, nanosecond: int)
    | UnixTime(sec: int, nsec: int)

  /** One decoded value and the bytes after it. */
  datatype Parsed = Parsed(value: Value, remaining: seq<Byte>)

  /** A descriptor that always consumes `size` bytes and applies `decode`. */
  datatype FixedLengthFieldDescriptor = FixedLengthFieldDescriptor(
    fieldType: FieldType,
    isNullable: NullableColumn,
    size: nat,
    decode: seq<Byte> --> Value)

  /** The decode closure accepts every input of the descriptor's width. */
  ghost predicate ValidFixedLength(d: FixedLengthFieldDescriptor)
  {
    forall b: seq<Byte> :: |b| == d.size ==> d.decode.requires(b)
  }

  /**
   * `newFixedLengthFieldDescriptor` builds the descriptor; its ParseValue
   * reads exactly `size` bytes and applies the closure to them.  The Go code
   * is not part of this model; this contract is an assumption about it.
   */
  function ParseValue(d: FixedLengthFieldDescriptor, data: seq<Byte>): (r: Result<Parsed>)
    requires ValidFixedLength(d)
    ensures r.Err? <==> |data| < d.size
    ensures r.Err? ==> r.error == TruncatedBuffer
    ensures r.Ok? ==> |r.value.remaining| == |data| - d.size
    ensures r.Ok? ==> data == data[..d.size] + r.value.remaining
    ensures r.Ok? ==> r.value.value == d.decode(data[..d.size])
  {
    match ReadSlice(data, d.size)
    case Err(e) => Err(e)
    case Ok((raw, remaining)) =>
      assert raw == data[..d.size];
      Ok(Parsed(d.decode(raw), remaining))
  }
}
