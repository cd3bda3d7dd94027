/** `ADT::Header`: the three counts of the 400-byte preamble, read with the
    unpack template "@24 I x4 I I", and the number of column descriptors
    they imply. */
module Headers {
  import opened Wrappers
  import opened Bytes

  /** Size of the preamble; the column descriptors start right after it. */
  const HEADER_SIZE: nat := 400
  /** Size of one column descriptor slot. */
  const SLOT_SIZE: nat := 200
  /** Offsets of the three fields; bytes 28 to 31 are skipped by `x4`. */
  const RECORD_COUNT_AT: nat := 24
  const DATA_OFFSET_AT: nat := 32
  const RECORD_LENGTH_AT: nat := 36
  /** The template needs this many bytes to find all three fields. */
  const FIELDS_END: nat := 40

  datatype Header = Header(recordCount: nat, dataOffset: nat, recordLength: nat)

  /** The preamble ended before the three fields did. */
  datatype HeaderError = ShortPreamble(size: nat)

  /** What `read(400)` at the start of the file returns. */
  function Preamble(file: seq<Byte>): (p: seq<Byte>)
    ensures |p| <= HEADER_SIZE
    ensures |p| <= |file| && p == file[..|p|]
    ensures |p| < HEADER_SIZE ==> p == file
  {
    if |file| <= HEADER_SIZE then file else file[..HEADER_SIZE]
  }

  /** `Header#initialize` / `unpack_header`: the unsigned little-endian
      32-bit values at bytes 24, 32 and 36 of the preamble. */
  function ParseHeader(file: seq<Byte>): (r: Result<Header, HeaderError>)
    ensures r.Ok? <==> |file| >= FIELDS_END
    ensures r.Ok? ==> r.value.recordCount == U32At(file, RECORD_COUNT_AT)
    ensures r.Ok? ==> r.value.dataOffset == U32At(file, DATA_OFFSET_AT)
    ensures r.Ok? ==> r.value.recordLength == U32At(file, RECORD_LENGTH_AT)
  {
    var p := Preamble(file);
    if |p| < FIELDS_END then Err(ShortPreamble(|p|))
    else Ok(Header(U32At(p, RECORD_COUNT_AT), U32At(p, DATA_OFFSET_AT), U32At(p, RECORD_LENGTH_AT)))
  }

  /** `(data_offset - 400) / 200` with Ruby's floor division: the number of
      whole descriptor slots between the preamble and the data, negative when
      the data starts inside the preamble. */
  function ColumnCount(h: Header): (n: int)
    ensures HEADER_SIZE + SLOT_SIZE * n <= h.dataOffset < HEADER_SIZE + SLOT_SIZE * (n + 1)
  {
    (h.dataOffset - HEADER_SIZE) / SLOT_SIZE
  }

  /** The floor bound pins the column count down: it is the only number of
      slots that fits between the preamble and the data. */
  lemma ColumnCountUnique(h: Header, k: int)
    requires HEADER_SIZE + SLOT_SIZE * k <= h.dataOffset < HEADER_SIZE + SLOT_SIZE * (k + 1)
    ensures k == ColumnCount(h)
  {
  }

  /** Only bytes 24 to 39 matter: two files that agree there (and are long
      enough) have the same header, whatever the rest of the preamble and
      the data hold. */
  lemma HeaderDependsOnFieldBytes(a: seq<Byte>, b: seq<Byte>)
    requires |a| >= FIELDS_END && |b| >= FIELDS_END
    requires a[RECORD_COUNT_AT..FIELDS_END] == b[RECORD_COUNT_AT..FIELDS_END]
    ensures ParseHeader(a) == ParseHeader(b)
  {
    forall k | RECORD_COUNT_AT <= k < FIELDS_END ensures a[k] == b[k] {
      assert a[k] == a[RECORD_COUNT_AT..FIELDS_END][k - RECORD_COUNT_AT];
    }
  }

  /** Conversely the header determines the bytes of its fields: two files
      with the same header agree on bytes 24 to 27 and 32 to 39 (but not on
      the skipped bytes 28 to 31). */
  lemma HeaderDeterminesFieldBytes(a: seq<Byte>, b: seq<Byte>)
    requires ParseHeader(a).Ok? && ParseHeader(a) == ParseHeader(b)
    ensures a[RECORD_COUNT_AT..RECORD_COUNT_AT + 4] == b[RECORD_COUNT_AT..RECORD_COUNT_AT + 4]
    ensures a[DATA_OFFSET_AT..FIELDS_END] == b[DATA_OFFSET_AT..FIELDS_END]
  {
    EncodeU32OfU32At(a, RECORD_COUNT_AT);
    EncodeU32OfU32At(b, RECORD_COUNT_AT);
    EncodeU32OfU32At(a, DATA_OFFSET_AT);
    EncodeU32OfU32At(b, DATA_OFFSET_AT);
    EncodeU32OfU32At(a, RECORD_LENGTH_AT);
    EncodeU32OfU32At(b, RECORD_LENGTH_AT);
    assert a[DATA_OFFSET_AT..FIELDS_END] == a[DATA_OFFSET_AT..DATA_OFFSET_AT + 4] + a[RECORD_LENGTH_AT..FIELDS_END];
    assert b[DATA_OFFSET_AT..FIELDS_END] == b[DATA_OFFSET_AT..DATA_OFFSET_AT + 4] + b[RECORD_LENGTH_AT..FIELDS_END];
  }

  /** Every field of a parsed header fits in 32 bits. */
  predicate Representable(h: Header) {
    h.recordCount < TWO_32 && h.dataOffset < TWO_32 && h.recordLength < TWO_32
  }

  /** A 400-byte preamble holding `h`, with zeros everywhere else. */
  function EncodeHeader(h: Header): (p: seq<Byte>)
    requires Representable(h)
    ensures |p| == HEADER_SIZE
  {
    seq(RECORD_COUNT_AT, _ => 0) + EncodeU32(h.recordCount) + [0, 0, 0, 0]
      + EncodeU32(h.dataOffset) + EncodeU32(h.recordLength) + seq(HEADER_SIZE - FIELDS_END, _ => 0)
  }

  /** Parsing an encoded preamble, whatever follows it, gives the header
      back. */
  lemma ParseEncodeHeader(h: Header, rest: seq<Byte>)
    requires Representable(h)
    ensures ParseHeader(EncodeHeader(h) + rest) == Ok(h)
  {
    var file := EncodeHeader(h) + rest;
    assert file[RECORD_COUNT_AT..RECORD_COUNT_AT + 4] == EncodeU32(h.recordCount);
    assert file[DATA_OFFSET_AT..DATA_OFFSET_AT + 4] == EncodeU32(h.dataOffset);
    assert file[RECORD_LENGTH_AT..FIELDS_END] == EncodeU32(h.recordLength);
    U32AtOfEncoded(file, RECORD_COUNT_AT, h.recordCount);
    U32AtOfEncoded(file, DATA_OFFSET_AT, h.dataOffset);
    U32AtOfEncoded(file, RECORD_LENGTH_AT, h.recordLength);
  }

  /** Reading back four bytes that encode `n`, wherever they sit. */
  lemma U32AtOfEncoded(b: seq<Byte>, off: nat, n: nat)
    requires n < TWO_32 && off + 4 <= |b|
    requires b[off..off + 4] == EncodeU32(n)
    ensures U32At(b, off) == n
  {
    U32RoundTrip(n);
    assert U32At(b, off) == U32At(b[off..off + 4], 0);
  }
}
