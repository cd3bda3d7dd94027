/** The per-type value casts of a column: each maps the bytes read for one
    field to a Ruby value, or raises. */
module ColumnTypes {
  import opened Wrappers
  import opened Bytes
  import opened RubyText

  /** A decoded field. Dates are kept as Julian day numbers and timestamps as
      (day, whole seconds), since the calendar and the local time zone are not
      part of the model; a float is kept as its 64-bit IEEE-754 pattern; text
      is the stripped field before its UTF-8 repair. */
  datatype Value =
    | Null
    | Bool(b: bool)
    | Int(i: nat)
    | Day(jd: nat)
    | Timestamp(day: nat, seconds: nat)
    | Double(bits: nat)
    | Text(s: string)

  /** The cast strategies, one per class of `ADT::ColumnType`. */
  datatype Kind = NilKind | BooleanKind | IntegerKind | DateKind | DateTimeKind | CurDoubleKind | StringKind

  /** Why a cast raised: the field was nil (`NoMethodError` / `TypeError` on
      nil), or too short for the values `unpack` must find in it. */
  datatype CastError = NilField(kind: Kind) | ShortField(kind: Kind)

  /** The "no value" pattern of a 32-bit integer field. */
  const INTEGER_SENTINEL: nat := 2_147_483_648

  /** Bit pattern of the double nearest 0.001, the `CurDouble` threshold. */
  const THRESHOLD_BITS: nat := 0x3F50_624D_D2F1_A9FC
  const SIGN_BIT: nat := 0x8000_0000_0000_0000
  const POSITIVE_INFINITY_BITS: nat := 0x7FF0_0000_0000_0000

  /** The pattern encodes a NaN: all exponent bits set and a non-zero
      fraction, whatever the sign. */
  predicate IsNaN(bits: nat) {
    bits % SIGN_BIT > POSITIVE_INFINITY_BITS
  }

  /** The double with this pattern compares `< 0.001`: every negative number
      and both zeros do, NaN never does, and non-negative doubles are ordered
      as their patterns are. */
  predicate BelowThreshold(bits: nat)
    requires bits < TWO_64
  {
    if bits >= SIGN_BIT then !IsNaN(bits) else bits < THRESHOLD_BITS
  }

  /** The value has the shape the strategy of kind `k` produces. */
  predicate OfKind(v: Value, k: Kind) {
    match k
    case NilKind => v.Null?
    case BooleanKind => v.Bool?
    case IntegerKind => v.Null? || (v.Int? && v.i < TWO_32 && v.i != INTEGER_SENTINEL)
    case DateKind => v.Null? || (v.Day? && 0 < v.jd < TWO_32)
    case DateTimeKind => v.Timestamp? && v.day < TWO_32 && v.seconds < TWO_32 / 1000 + 1
    case CurDoubleKind => v.Null? || (v.Double? && v.bits < TWO_64 && !BelowThreshold(v.bits))
    case StringKind => v.Text? && Trimmed(v.s)
  }

  /** `Boolean#type_cast`: false exactly when the field is an `F` with only
      whitespace or NULs around it, so `T`, `f` and a blank field are all
      true. */
  function BooleanCast(v: seq<Byte>): (r: Value)
    ensures r.Bool?
    ensures !r.b <==> exists i :: PaddedAt(ToChars(v), "F", i)
  {
    var s := ToChars(v);
    StripIsCore(s, "F");
    Bool(Strip(s) != "F")
  }

  /** `Integer#type_cast` as written: nil for a field that is blank after
      `strip`; otherwise the first four bytes read as an unsigned
      little-endian integer, nil for the sentinel, and 0 when fewer than four
      bytes are there (`unpack` gives nil, whose `to_i` is 0). The blank test
      runs on binary data, so integers whose four bytes are all whitespace or
      NUL (0, 9 to 13, 32, ...) come out as nil too. */
  function IntegerCastAsWritten(v: seq<Byte>): (r: Value)
    ensures Blank(ToChars(v)) ==> r == Null
    ensures !Blank(ToChars(v)) && |v| < 4 ==> r == Int(0)
    ensures !Blank(ToChars(v)) && |v| >= 4 ==>
      (r == Null <==> U32At(v, 0) == INTEGER_SENTINEL) && (r != Null ==> r == Int(U32At(v, 0)))
  {
    if Strip(ToChars(v)) == [] then Null
    else
      var n := if |v| >= 4 then U32At(v, 0) else 0;
      if n == INTEGER_SENTINEL then Null else Int(n)
  }

  /** The integer 10 is stored as `0A 00 00 00`, which `strip` empties, so
      the cast as written reads it back as nil. */
  lemma IntegerCastAsWrittenDropsTen()
    ensures IntegerCastAsWritten(EncodeU32(10)) == Null
  {
    var s := ToChars(EncodeU32(10));
    assert s == ['\n', '\0', '\0', '\0'];
    assert Blank(s);
  }

  /** `Integer#type_cast` with the blank test applied to the field as the
      specification examples use it: only an empty field is nil; otherwise
      the first four bytes as an unsigned little-endian integer, nil for the
      sentinel, and 0 when fewer than four bytes are there. */
  function IntegerCast(v: seq<Byte>): (r: Value)
    ensures |v| == 0 ==> r == Null
    ensures 0 < |v| < 4 ==> r == Int(0)
    ensures |v| >= 4 ==>
      (r == Null <==> U32At(v, 0) == INTEGER_SENTINEL) && (r != Null ==> r == Int(U32At(v, 0)))
  {
    if |v| == 0 then Null
    else
      var n := if |v| >= 4 then U32At(v, 0) else 0;
      if n == INTEGER_SENTINEL then Null else Int(n)
  }

  /** The corrected cast departs from the cast as written only on a field
      that is not empty but made wholly of NUL and whitespace bytes, which
      the cast as written reads as nil. */
  lemma IntegerCastDiffersOnlyOnBlank(v: seq<Byte>)
    ensures IntegerCast(v) != IntegerCastAsWritten(v) ==>
      v != [] && Blank(ToChars(v)) && IntegerCastAsWritten(v) == Null
  {
  }

  /** Every 32-bit integer except the sentinel survives encoding and the
      corrected cast, whatever bytes follow it in the field. */
  lemma IntegerCastRoundTrip(n: nat, tail: seq<Byte>)
    requires n < TWO_32 && n != INTEGER_SENTINEL
    ensures IntegerCast(EncodeU32(n) + tail) == Int(n)
  {
    var v := EncodeU32(n) + tail;
    U32RoundTrip(n);
    assert v[..4] == EncodeU32(n);
    assert U32At(v, 0) == U32At(EncodeU32(n), 0);
  }

  /** `Date#type_cast`: the Julian day in the first four bytes, nil for day 0
      or when fewer than four bytes are there. */
  function DateCast(v: seq<Byte>): (r: Value)
    ensures |v| < 4 ==> r == Null
    ensures |v| >= 4 ==> (r == Null <==> U32At(v, 0) == 0) && (r != Null ==> r == Day(U32At(v, 0)))
  {
    var n := if |v| >= 4 then U32At(v, 0) else 0;
    if n == 0 then Null else Day(n)
  }

  /** Every non-zero day number survives encoding and the cast. */
  lemma DateCastRoundTrip(day: nat, tail: seq<Byte>)
    requires 0 < day < TWO_32
    ensures DateCast(EncodeU32(day) + tail) == Day(day)
  {
    U32AtOfPrefix(day, tail);
  }

  /** Reading four bytes back from the front of a field that starts with
      the encoding of `n`. */
  lemma U32AtOfPrefix(n: nat, tail: seq<Byte>)
    requires n < TWO_32
    ensures U32At(EncodeU32(n) + tail, 0) == n
  {
    U32RoundTrip(n);
    assert (EncodeU32(n) + tail)[..4] == EncodeU32(n);
    assert U32At(EncodeU32(n) + tail, 0) == U32At(EncodeU32(n), 0);
  }

  /** `DateTime#type_cast`: a day number and a count of milliseconds, the
      latter truncated to whole seconds; no sentinel, and a field without both
      numbers raises. */
  function DateTimeCast(v: seq<Byte>): (r: Result<Value, CastError>)
    ensures r.Ok? <==> |v| >= 8
    ensures r.Ok? ==> r.value.Timestamp? && r.value.day == U32At(v, 0)
    ensures r.Ok? ==> r.value.seconds * 1000 <= U32At(v, 4) < (r.value.seconds + 1) * 1000
  {
    if |v| < 8 then Err(ShortField(DateTimeKind))
    else Ok(Timestamp(U32At(v, 0), U32At(v, 4) / 1000))
  }

  /** A day and a millisecond count come back as the day and the whole
      seconds. */
  lemma DateTimeCastRoundTrip(day: nat, millis: nat, tail: seq<Byte>)
    requires day < TWO_32 && millis < TWO_32
    ensures DateTimeCast(EncodeU32(day) + EncodeU32(millis) + tail) == Ok(Timestamp(day, millis / 1000))
  {
    var v := EncodeU32(day) + EncodeU32(millis) + tail;
    U32AtOfPrefix(day, EncodeU32(millis) + tail);
    assert v == EncodeU32(day) + (EncodeU32(millis) + tail);
    U32AtOfPrefix(millis, tail);
    assert U32At(v, 4) == U32At(v[4..], 0);
    assert v[4..] == EncodeU32(millis) + tail;
  }

  /** `CurDouble#type_cast`: the double in the first eight bytes, nil when it
      is below 0.001; a field shorter than eight bytes raises. */
  function CurDoubleCast(v: seq<Byte>): (r: Result<Value, CastError>)
    ensures r.Err? <==> |v| < 8
    ensures r.Ok? ==> (r.value == Null <==> BelowThreshold(U64At(v, 0)))
    ensures r.Ok? && r.value != Null ==> r.value == Double(U64At(v, 0))
  {
    if |v| < 8 then Err(ShortField(CurDoubleKind))
    else
      var bits := U64At(v, 0);
      Ok(if BelowThreshold(bits) then Null else Double(bits))
  }

  /** A double at or above the threshold comes back as its own bit
      pattern; one below it comes back as nil. */
  lemma CurDoubleCastRoundTrip(bits: nat, tail: seq<Byte>)
    requires bits < TWO_64
    ensures CurDoubleCast(EncodeU64(bits) + tail) == Ok(if BelowThreshold(bits) then Null else Double(bits))
  {
    var v := EncodeU64(bits) + tail;
    U64RoundTrip(bits);
    assert v[..8] == EncodeU64(bits);
    assert U64At(v, 0) == U64At(EncodeU64(bits), 0) by {
      assert U32At(v, 0) == U32At(EncodeU64(bits), 0);
      assert U32At(v, 4) == U32At(EncodeU64(bits), 4);
    }
  }

  /** `String#type_cast`: the field without its surrounding whitespace and
      NULs. */
  function StringCast(v: seq<Byte>): (r: Value)
    ensures r.Text? && Trimmed(r.s)
    ensures PaddedAt(ToChars(v), r.s, LeadingSpace(ToChars(v)))
  {
    Text(Strip(ToChars(v)))
  }

  /** Text padded with whitespace or NULs on either side comes back as
      the text. */
  lemma StringCastRoundTrip(left: seq<Byte>, text: seq<Byte>, right: seq<Byte>)
    requires Blank(ToChars(left)) && Blank(ToChars(right)) && Trimmed(ToChars(text))
    ensures StringCast(left + text + right) == Text(ToChars(text))
  {
    var s := ToChars(left + text + right);
    assert s == ToChars(left) + ToChars(text) + ToChars(right);
    var i := |left|;
    assert s[..i] == ToChars(left);
    assert s[i..i + |text|] == ToChars(text);
    assert s[i + |text|..] == ToChars(right);
    StripOfPadded(s, ToChars(text), i);
  }

  /** A cast of the strategy `k` applied to what `read` returned: `None` is
      Ruby's nil, which only `Nil` and `Date` (through its `rescue`) turn into
      nil; every other strategy raises on it. */
  function Cast(k: Kind, field: Option<seq<Byte>>): (r: Result<Value, CastError>)
    ensures k == NilKind ==> r == Ok(Null)
    ensures field.None? ==> (r.Ok? <==> k == NilKind || k == DateKind) && (r.Ok? ==> r.value == Null)
    ensures r.Ok? ==> OfKind(r.value, k)
    ensures r.Err? ==> k == DateTimeKind || k == CurDoubleKind || field.None?
  {
    match field
    case None =>
      if k == NilKind || k == DateKind then Ok(Null) else Err(NilField(k))
    case Some(v) =>
      match k
      case NilKind => Ok(Null)
      case BooleanKind => Ok(BooleanCast(v))
      case IntegerKind => Ok(IntegerCast(v))
      case DateKind => Ok(DateCast(v))
      case DateTimeKind => DateTimeCast(v)
      case CurDoubleKind => CurDoubleCast(v)
      case StringKind => Ok(StringCast(v))
  }

  /** The `flag` each strategy reports. */
  function KindFlag(k: Kind): string {
    match k
    case NilKind => ""
    case BooleanKind => ""
    case IntegerKind => "i"
    case DateKind => "?"
    case DateTimeKind => "?"
    case CurDoubleKind => "D"
    case StringKind => "A"
  }
}
