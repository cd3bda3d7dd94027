/** `ADT::Table`: a read-only cursor over the bytes of one `.adt` file. The
    header and the column list are read lazily and memoised; records are
    read at `data_offset + index * record_length`, after a one-byte flag.
    The open file is modelled as its bytes plus a read position, and every
    operation returns its result together with the table it leaves. */
module Tables {
  import opened Wrappers
  import opened Bytes
  import opened RubyText
  import opened ColumnTypes
  import opened Columns
  import opened Headers
  import opened Records

  /** Bytes of the column name in a descriptor slot (`A128`). */
  const NAME_SIZE: nat := 128
  /** Offsets of the two 16-bit fields of a slot (`x S x4 S`). */
  const TYPE_AT: nat := 129
  const LENGTH_AT: nat := 135
  /** The template needs this many bytes of a slot. */
  const SLOT_FIELDS_END: nat := 137
  /** The flag byte of a deleted record, `'*'`. */
  const TOMBSTONE: Byte := 42

  /** One 200-byte column descriptor, decoded. */
  datatype Descriptor = Descriptor(name: string, typeCode: nat, length: nat)

  /** The ways reading a table can raise. */
  datatype TableError =
    | HeaderFailed(cause: HeaderError)
    | MissingSlot(slot: nat)              // `read(200)` returned nil
    | ShortSlot(slot: nat)                // fewer bytes than the template needs
    | BadColumn(slot: nat, problem: ColumnError)
    | InvalidSeek                         // a negative record offset
    | MissingRecordData                   // `StringIO.new(nil)`

  /** An open table: the file, its read position and the two memos. */
  datatype Table = Table(file: seq<Byte>, pos: nat, header: Option<Header>, columns: Option<seq<Column>>)

  /** What an operation returns and the table it leaves behind. */
  datatype Outcome<T> = Outcome(result: Result<T, TableError>, table: Table)

  /** A freshly opened table: at the start of the file, nothing memoised. */
  function Open(file: seq<Byte>): (t: Table)
    ensures t.file == file && t.pos == 0
    ensures Coherent(t)
  {
    Table(file, 0, None, None)
  }

  // ---------------------------------------------------------------------
  // Descriptor slots
  // ---------------------------------------------------------------------

  predicate IsAPad(c: char) {
    c == ' ' || c == '\0'
  }

  /** The `A` directive of `unpack`: trailing spaces and NULs removed,
      nothing else. */
  function ATrim(s: string): (r: string)
    ensures |r| <= |s| && r == s[..|r|]
    ensures forall i | |r| <= i < |s| :: IsAPad(s[i])
    ensures r == [] || !IsAPad(r[|r| - 1])
  {
    if s != [] && IsAPad(s[|s| - 1]) then ATrim(s[..|s| - 1]) else s
  }

  /** Where slot `k` begins: right after the preamble, 200 bytes apiece. */
  function SlotStart(k: nat): (p: nat)
    ensures p >= HEADER_SIZE && p - HEADER_SIZE == SLOT_SIZE * k
  {
    HEADER_SIZE + SLOT_SIZE * k
  }

  /** `unpack('A128 x S x4 S')` followed by `name.strip`: the name from the
      first 128 bytes, the unsigned little-endian 16-bit values at bytes 129
      and 135. A slot too short for the template yields nothing. */
  function ParseSlot(slot: seq<Byte>): (d: Option<Descriptor>)
    ensures d.Some? <==> |slot| >= SLOT_FIELDS_END
    ensures d.Some? ==> d.value.typeCode < TWO_16 && d.value.length < TWO_16
    ensures d.Some? ==> Trimmed(d.value.name) && |d.value.name| <= NAME_SIZE
  {
    if |slot| < SLOT_FIELDS_END then None
    else Some(Descriptor(Strip(ATrim(ToChars(slot[..NAME_SIZE]))), U16At(slot, TYPE_AT), U16At(slot, LENGTH_AT)))
  }

  /** A slot written by a table writer: the name padded with spaces to 128
      bytes, one filler byte, the type, four filler bytes, the length, and
      zeros to 200 bytes. */
  function EncodeSlot(name: seq<Byte>, typeCode: nat, length: nat): (slot: seq<Byte>)
    requires |name| <= NAME_SIZE && typeCode < TWO_16 && length < TWO_16
    ensures |slot| == SLOT_SIZE
  {
    name + seq(NAME_SIZE - |name|, _ => 0x20) + [0] + EncodeU16(typeCode) + [0, 0, 0, 0]
      + EncodeU16(length) + seq(SLOT_SIZE - SLOT_FIELDS_END, _ => 0)
  }

  /** Parsing an encoded slot gives back its name, type and length, when the
      name has no padding of its own at either end. */
  lemma SlotRoundTrip(name: seq<Byte>, typeCode: nat, length: nat)
    requires |name| <= NAME_SIZE && typeCode < TWO_16 && length < TWO_16
    requires Trimmed(ToChars(name))
    ensures ParseSlot(EncodeSlot(name, typeCode, length)) == Some(Descriptor(ToChars(name), typeCode, length))
  {
    var slot := EncodeSlot(name, typeCode, length);
    SlotNameRoundTrip(name, slot[NAME_SIZE..]);
    assert slot == name + seq(NAME_SIZE - |name|, _ => 0x20) + slot[NAME_SIZE..];
    SlotFieldsRoundTrip(name, typeCode, length);
  }

  lemma SlotNameRoundTrip(name: seq<Byte>, rest: seq<Byte>)
    requires |name| <= NAME_SIZE && Trimmed(ToChars(name))
    ensures var slot := name + seq(NAME_SIZE - |name|, _ => 0x20) + rest;
      Strip(ATrim(ToChars(slot[..NAME_SIZE]))) == ToChars(name)
  {
    var slot := name + seq(NAME_SIZE - |name|, _ => 0x20) + rest;
    assert slot[..NAME_SIZE] == name + seq(NAME_SIZE - |name|, _ => 0x20);
    ATrimOfPadded(ToChars(slot[..NAME_SIZE]), ToChars(name));
    StripTrimmed(ToChars(name));
  }

  lemma SlotFieldsRoundTrip(name: seq<Byte>, typeCode: nat, length: nat)
    requires |name| <= NAME_SIZE && typeCode < TWO_16 && length < TWO_16
    ensures var slot := EncodeSlot(name, typeCode, length);
      U16At(slot, TYPE_AT) == typeCode && U16At(slot, LENGTH_AT) == length
  {
    var slot := EncodeSlot(name, typeCode, length);
    assert slot[TYPE_AT..TYPE_AT + 2] == EncodeU16(typeCode);
    assert slot[LENGTH_AT..SLOT_FIELDS_END] == EncodeU16(length);
    U16AtOfEncoded(slot, TYPE_AT, typeCode);
    U16AtOfEncoded(slot, LENGTH_AT, length);
  }

  /** `A` removes exactly the padding after a name that does not end in
      padding. */
  lemma ATrimOfPadded(s: string, name: string)
    requires |name| <= |s| && s[..|name|] == name
    requires name == [] || !IsAPad(name[|name| - 1])
    requires forall i | |name| <= i < |s| :: s[i] == ' '
    ensures ATrim(s) == name
  {
    var r := ATrim(s);
    if name != [] {
      assert s[|name| - 1] == name[|name| - 1];
    }
    if r != [] {
      assert s[|r| - 1] == r[|r| - 1];
    }
  }

  lemma StripTrimmed(s: string)
    requires Trimmed(s)
    ensures Strip(s) == s
  {
    assert s[..0] == [] && s[|s|..] == [];
    StripOfPadded(s, s, 0);
  }

  /** Reading back two bytes that encode `n`, wherever they sit. */
  lemma U16AtOfEncoded(b: seq<Byte>, off: nat, n: nat)
    requires n < TWO_16 && off + 2 <= |b|
    requires b[off..off + 2] == EncodeU16(n)
    ensures U16At(b, off) == n
  {
    U16RoundTrip(n);
    assert U16At(b, off) == U16At(b[off..off + 2], 0);
  }

  /** One pass of the `column_count.times` loop on what `read(200)`
      returned: nil and a short slot raise, a zero-length column is skipped
      (`None`), any other becomes a column or raises `Column.new`'s error. */
  function SlotFrom(slot: Option<seq<Byte>>, k: nat): (r: Result<Option<Column>, TableError>)
    ensures r == Err(MissingSlot(k)) <==> slot.None?
    ensures r == Err(ShortSlot(k)) <==> slot.Some? && |slot.value| < SLOT_FIELDS_END
    ensures r == Ok(None) <==> slot.Some? && |slot.value| >= SLOT_FIELDS_END && U16At(slot.value, LENGTH_AT) == 0
    ensures r.Ok? && r.value.Some? ==> Usable(r.value.value)
  {
    if slot.None? then Err(MissingSlot(k))
    else
      var d := ParseSlot(slot.value);
      if d.None? then Err(ShortSlot(k))
      else if d.value.length == 0 then Ok(None)
      else
        var c := New(d.value.name, d.value.typeCode, d.value.length);
        if c.Err? then Err(BadColumn(k, c.error)) else Ok(Some(c.value))
  }

  /** What slot `k` yields, read at its own offset. */
  function SlotColumn(file: seq<Byte>, k: nat): Result<Option<Column>, TableError> {
    SlotFrom(ReadAt(file, SlotStart(k), SLOT_SIZE).data, k)
  }

  function SlotColumns(file: seq<Byte>, n: nat): (rs: seq<Result<Option<Column>, TableError>>)
    ensures |rs| == n
    ensures forall k | 0 <= k < n :: rs[k] == SlotColumn(file, k)
    ensures forall k | 0 <= k < n && rs[k].Ok? && rs[k].value.Some? :: Usable(rs[k].value.value)
  {
    seq(n, k requires 0 <= k < n => SlotColumn(file, k))
  }

  /** The columns of the slots that yield one, in slot order, when no slot
      raises; otherwise the first slot's error. */
  function Keep(rs: seq<Result<Option<Column>, TableError>>): (r: Result<seq<Column>, TableError>)
    ensures r.Ok? <==> forall i | 0 <= i < |rs| :: rs[i].Ok?
    ensures r.Err? ==> exists i | 0 <= i < |rs| :: rs[i] == Err(r.error) && forall j | 0 <= j < i :: rs[j].Ok?
    ensures r.Ok? ==> |r.value| <= |rs|
    ensures r.Ok? ==> forall c | c in r.value :: exists i | 0 <= i < |rs| :: rs[i] == Ok(Some(c))
    ensures r.Ok? ==> forall i | 0 <= i < |rs| && rs[i].Ok? && rs[i].value.Some? :: rs[i].value.value in r.value
    decreases |rs|
  {
    if rs == [] then Ok([])
    else if rs[0].Err? then Err(rs[0].error)
    else
      var rest := Keep(rs[1..]);
      if rest.Err? then
        ghost var i :| 0 <= i < |rs[1..]| && rs[1..][i] == Err(rest.error) && forall j | 0 <= j < i :: rs[1..][j].Ok?;
        assert rs[i + 1] == Err(rest.error);
        Err(rest.error)
      else
        var head := if rs[0].value.Some? then [rs[0].value.value] else [];
        KeepOkStep(rs, head, rest.value);
        Ok(head + rest.value)
  }

  lemma KeepOkStep(rs: seq<Result<Option<Column>, TableError>>, head: seq<Column>, rest: seq<Column>)
    requires rs != [] && rs[0].Ok?
    requires head == (if rs[0].value.Some? then [rs[0].value.value] else [])
    requires forall c | c in rest :: exists i | 0 <= i < |rs[1..]| :: rs[1..][i] == Ok(Some(c))
    requires forall i | 0 <= i < |rs[1..]| && rs[1..][i].Ok? && rs[1..][i].value.Some? :: rs[1..][i].value.value in rest
    ensures forall c | c in head + rest :: exists i | 0 <= i < |rs| :: rs[i] == Ok(Some(c))
    ensures forall i | 0 <= i < |rs| && rs[i].Ok? && rs[i].value.Some? :: rs[i].value.value in head + rest
  {
    forall c | c in head + rest ensures exists i | 0 <= i < |rs| :: rs[i] == Ok(Some(c)) {
      if c in head {
        assert rs[0] == Ok(Some(c));
      } else {
        var i :| 0 <= i < |rs[1..]| && rs[1..][i] == Ok(Some(c));
        assert rs[i + 1] == Ok(Some(c));
      }
    }
    forall i | 0 <= i < |rs| && rs[i].Ok? && rs[i].value.Some? ensures rs[i].value.value in head + rest {
      if i > 0 {
        assert rs[1..][i - 1] == rs[i];
      }
    }
  }

  /** One step of `Keep`. */
  lemma KeepStep(rs: seq<Result<Option<Column>, TableError>>)
    requires rs != []
    ensures Keep(rs) == Prepend(rs[0], Keep(rs[1..]))
  {
  }

  /** `Keep` works slot by slot, in order: the columns of one run of slots
      followed by another are those of the first run followed by those of
      the second, and the first error wins. */
  lemma {:induction false} KeepAppend(a: seq<Result<Option<Column>, TableError>>, b: seq<Result<Option<Column>, TableError>>)
    ensures Keep(a + b) == Joined(Keep(a), Keep(b))
    decreases |a|
  {
    if a == [] {
      assert a + b == b;
      assert Keep(a) == Ok([]);
      if Keep(b).Ok? {
        assert [] + Keep(b).value == Keep(b).value;
      }
    } else {
      assert (a + b)[1..] == a[1..] + b;
      assert (a + b)[0] == a[0];
      KeepAppend(a[1..], b);
      KeepStep(a + b);
      KeepStep(a);
      JoinedStep(a[0], Keep(a[1..]), Keep(b));
    }
  }

  /** Two column lists built one after the other: the first error wins. */
  function Joined(x: Result<seq<Column>, TableError>, y: Result<seq<Column>, TableError>): Result<seq<Column>, TableError> {
    if x.Err? then x else if y.Err? then y else Ok(x.value + y.value)
  }

  /** One slot in front of a result, as `Keep` adds it. */
  function Prepend(r: Result<Option<Column>, TableError>, rest: Result<seq<Column>, TableError>): Result<seq<Column>, TableError> {
    if r.Err? then Err(r.error) else if rest.Err? then Err(rest.error)
    else Ok((if r.value.Some? then [r.value.value] else []) + rest.value)
  }

  lemma JoinedStep(r: Result<Option<Column>, TableError>, x: Result<seq<Column>, TableError>, y: Result<seq<Column>, TableError>)
    ensures Prepend(r, Joined(x, y)) == Joined(Prepend(r, x), y)
  {
    if r.Ok? && x.Ok? && y.Ok? {
      var head := if r.value.Some? then [r.value.value] else [];
      assert head + (x.value + y.value) == (head + x.value) + y.value;
    }
  }

  /** A single slot gives its column, nothing, or its error. */
  lemma KeepSingle(r: Result<Option<Column>, TableError>)
    ensures Keep([r]) == (if r.Err? then Err(r.error) else if r.value.Some? then Ok([r.value.value]) else Ok([]))
  {
    KeepStep([r]);
    assert [r][1..] == [];
    assert Keep([]) == Ok([]);
    if r.Ok? && r.value.Some? {
      assert [r.value.value] + [] == [r.value.value];
    }
  }

  /** Whole-number slot count: `Integer#times` on a negative count does
      nothing. */
  function SlotCount(h: Header): (n: nat)
    ensures ColumnCount(h) >= 0 ==> n == ColumnCount(h)
    ensures ColumnCount(h) < 0 ==> n == 0
  {
    if ColumnCount(h) < 0 then 0 else ColumnCount(h)
  }

  function HeaderResult(file: seq<Byte>): (r: Result<Header, TableError>)
    ensures r.Ok? <==> ParseHeader(file).Ok?
    ensures r.Ok? ==> r.value == ParseHeader(file).value
    ensures r.Err? ==> r.error == HeaderFailed(ParseHeader(file).error)
  {
    var p := ParseHeader(file);
    if p.Err? then Err(HeaderFailed(p.error)) else Ok(p.value)
  }

  /** The column list the file describes, read slot by slot at fixed
      offsets: every slot the header counts is present and long enough,
      zero-length columns are dropped, and each kept one is well formed. */
  function ColumnsOf(file: seq<Byte>): (r: Result<seq<Column>, TableError>)
    ensures r.Ok? ==> forall i | 0 <= i < |r.value| :: Usable(r.value[i])
    ensures r.Ok? ==> ParseHeader(file).Ok? && |r.value| <= SlotCount(ParseHeader(file).value)
  {
    var h := HeaderResult(file);
    if h.Err? then Err(h.error)
    else
      var rs := SlotColumns(file, SlotCount(h.value));
      KeepUsable(rs);
      Keep(rs)
  }

  /** What every column the loop keeps satisfies. */
  predicate Usable(c: Column) {
    WellFormed(c) && c.length > 0
  }

  /** `Keep` only passes on columns the slots yielded. */
  lemma KeepUsable(rs: seq<Result<Option<Column>, TableError>>)
    requires forall k | 0 <= k < |rs| && rs[k].Ok? && rs[k].value.Some? :: Usable(rs[k].value.value)
    ensures Keep(rs).Ok? ==> forall i | 0 <= i < |Keep(rs).value| :: Usable(Keep(rs).value[i])
  {
    var r := Keep(rs);
    if r.Ok? {
      forall i | 0 <= i < |r.value| ensures Usable(r.value[i]) {
        assert r.value[i] in r.value;
        var k :| 0 <= k < |rs| && rs[k] == Ok(Some(r.value[i]));
      }
    }
  }

  /** The `build_columns` loop from slot `k` on, with the file positioned
      at `pos`: the columns built so far (kept, even when a later slot
      raises), where the loop left the position, and the error if one was
      raised. */
  datatype Scan = Scan(cols: seq<Column>, pos: nat, error: Option<TableError>)

  function ScanSlots(file: seq<Byte>, pos: nat, k: nat, n: nat): (sc: Scan)
    ensures k <= n ==> |sc.cols| <= n - k
    ensures forall i | 0 <= i < |sc.cols| :: Usable(sc.cols[i])
    decreases n - k
  {
    if k >= n then Scan([], pos, None)
    else
      var rd := ReadAt(file, pos, SLOT_SIZE);
      var s := SlotFrom(rd.data, k);
      if s.Err? then Scan([], rd.pos, Some(s.error))
      else
        var rest := ScanSlots(file, rd.pos, k + 1, n);
        var head := if s.value.Some? then [s.value.value] else [];
        AllUsableAppend(head, rest.cols);
        Scan(head + rest.cols, rest.pos, rest.error)
  }

  lemma AllUsableAppend(a: seq<Column>, b: seq<Column>)
    requires forall i | 0 <= i < |a| :: Usable(a[i])
    requires forall i | 0 <= i < |b| :: Usable(b[i])
    ensures forall i | 0 <= i < |a + b| :: Usable((a + b)[i])
  {
  }

  /** What the loop returns, or raises. */
  function ScanResult(sc: Scan): Result<seq<Column>, TableError> {
    if sc.error.Some? then Err(sc.error.value) else Ok(sc.cols)
  }

  /** One pass of the loop: the slot read at the cursor, then the rest. */
  lemma ScanStep(file: seq<Byte>, pos: nat, k: nat, n: nat)
    requires k < n
    ensures var rd := ReadAt(file, pos, SLOT_SIZE);
      var s := SlotFrom(rd.data, k);
      var rest := ScanSlots(file, rd.pos, k + 1, n);
      ScanResult(ScanSlots(file, pos, k, n)) == (if s.Err? then Err(s.error) else if ScanResult(rest).Err? then ScanResult(rest)
        else Ok((if s.value.Some? then [s.value.value] else []) + ScanResult(rest).value))
  {
  }

  /** The cursor before slot `k` is where the slot sizes put it, as far as
      any read can tell. */
  lemma SlotCursorStep(file: seq<Byte>, pos: nat, k: nat)
    requires SamePlace(file, pos, SlotStart(k))
    ensures ReadAt(file, pos, SLOT_SIZE).data == ReadAt(file, SlotStart(k), SLOT_SIZE).data
    ensures SamePlace(file, ReadAt(file, pos, SLOT_SIZE).pos, SlotStart(k + 1))
  {
    ReadAtSamePlace(file, pos, SlotStart(k), SLOT_SIZE);
  }

  /** The sequential loop reads each slot at its own offset: its outcome is
      `Keep` of the slots from `k` to `n`. */
  lemma {:induction false} ScanAtSlots(file: seq<Byte>, pos: nat, k: nat, n: nat)
    requires k <= n && SamePlace(file, pos, SlotStart(k))
    ensures ScanResult(ScanSlots(file, pos, k, n)) == Keep(SlotColumns(file, n)[k..])
    decreases n - k
  {
    var rs := SlotColumns(file, n);
    if k == n {
      assert rs[k..] == [];
    } else {
      assert rs[k..][0] == rs[k] && rs[k..][1..] == rs[k + 1..];
      SlotCursorStep(file, pos, k);
      ScanStep(file, pos, k, n);
      KeepStep(rs[k..]);
      ScanAtSlots(file, ReadAt(file, pos, SLOT_SIZE).pos, k + 1, n);
    }
  }

  // ---------------------------------------------------------------------
  // The table's state
  // ---------------------------------------------------------------------

  /** The memos hold what the file says. */
  predicate Coherent(t: Table) {
    (t.header.Some? ==> ParseHeader(t.file) == Ok(t.header.value))
    && (t.columns.Some? ==> ColumnsOf(t.file) == Ok(t.columns.value))
  }

  /** `Table#header`: the memo if there is one; otherwise seek to 0, read
      400 bytes and unpack them, then seek back and memoise. When the unpack
      raises, `safe_seek` does not seek back. */
  function GetHeader(t: Table): (o: Outcome<Header>)
    ensures o.table.file == t.file && o.table.columns == t.columns
    ensures o.result.Ok? ==> o.table.pos == t.pos && o.table.header == Some(o.result.value)
    ensures Coherent(t) ==> o.result == HeaderResult(t.file) && Coherent(o.table)
  {
    if t.header.Some? then Outcome(Ok(t.header.value), t)
    else
      var h := HeaderResult(t.file);
      if h.Err? then Outcome(Err(h.error), t.(pos := ReadAt(t.file, 0, HEADER_SIZE).pos))
      else Outcome(Ok(h.value), t.(header := Some(h.value)))
  }

  /** `Table#columns` as written: `build_columns` seeks to 400 and memoises
      an empty list before it asks for the header, then appends to that
      list; when anything raises, the partial list stays memoised and the
      position is not restored. */
  function GetColumnsAsWritten(t: Table): (o: Outcome<seq<Column>>)
    ensures o.table.file == t.file
    ensures o.table.columns.Some?
    ensures o.result.Ok? ==> o.table.pos == t.pos && o.table.columns == Some(o.result.value)
  {
    if t.columns.Some? then Outcome(Ok(t.columns.value), t)
    else
      var ho := GetHeader(t.(pos := HEADER_SIZE, columns := Some([])));
      if ho.result.Err? then Outcome(Err(ho.result.error), ho.table)
      else
        var sc := ScanSlots(t.file, HEADER_SIZE, 0, SlotCount(ho.result.value));
        var t2 := ho.table.(columns := Some(sc.cols));
        if sc.error.Some? then Outcome(Err(sc.error.value), t2.(pos := sc.pos))
        else Outcome(Ok(sc.cols), t2.(pos := t.pos))
  }

  /** The first call on an empty file raises (its preamble is too short),
      but it leaves an empty list memoised, so the second call returns no
      columns instead of raising again. */
  lemma ColumnsAsWrittenForgetsFailure()
    ensures var t := Open([]);
      var first := GetColumnsAsWritten(t);
      var second := GetColumnsAsWritten(first.table);
      first.result == Err(HeaderFailed(ShortPreamble(0)))
      && second.result == Ok([])
      && ColumnsOf(t.file).Err?
  {
  }

  /** `Table#columns` as intended: memoise only what was built without
      error, and always restore the position. It returns what the file
      says, and leaves the memos truthful. */
  function GetColumns(t: Table): (o: Outcome<seq<Column>>)
    ensures o.table.file == t.file && o.table.pos == t.pos
    ensures o.result.Ok? ==> o.table.columns == Some(o.result.value)
    ensures Coherent(t) ==> o.result == ColumnsOf(t.file) && Coherent(o.table)
  {
    if t.columns.Some? then Outcome(Ok(t.columns.value), t)
    else
      var ho := GetHeader(t);
      if ho.result.Err? then Outcome(Err(ho.result.error), ho.table.(pos := t.pos))
      else
        var n := SlotCount(ho.result.value);
        var sc := ScanSlots(t.file, HEADER_SIZE, 0, n);
        ScanFromPreamble(t.file, n);
        if sc.error.Some? then Outcome(Err(sc.error.value), ho.table)
        else Outcome(Ok(sc.cols), ho.table.(columns := Some(sc.cols)))
  }

  /** `columns` is computed once: after a call succeeds, asking again
      returns the same list and leaves the table as it is. */
  lemma ColumnsMemoised(t: Table)
    requires GetColumns(t).result.Ok?
    ensures var o := GetColumns(t);
      GetColumns(o.table) == Outcome(o.result, o.table)
  {
  }

  /** The same holds of `header`. */
  lemma HeaderMemoised(t: Table)
    requires GetHeader(t).result.Ok?
    ensures var o := GetHeader(t);
      GetHeader(o.table) == Outcome(o.result, o.table)
  {
  }

  /** The loop that starts right after the preamble reads every slot from
      the first. */
  lemma ScanFromPreamble(file: seq<Byte>, n: nat)
    ensures ScanResult(ScanSlots(file, HEADER_SIZE, 0, n)) == Keep(SlotColumns(file, n))
  {
    assert SlotColumns(file, n)[0..] == SlotColumns(file, n);
    ScanAtSlots(file, HEADER_SIZE, 0, n);
  }

  /** When the as-written `columns` succeeds it does exactly what the
      corrected one does. */
  lemma ColumnsAsWrittenAgreesOnSuccess(t: Table)
    requires GetColumnsAsWritten(t).result.Ok?
    ensures GetColumnsAsWritten(t) == GetColumns(t)
  {
  }

  /** Where `seek_to_record(index)` puts the position. */
  function RecordOffset(h: Header, index: int): int {
    h.dataOffset + index * h.recordLength
  }

  /** `Table#record`: seek to the record through `header`, then read it
      there. */
  function GetRecord(t: Table, index: int): (o: Outcome<Option<Record>>)
    ensures o.table.file == t.file
    ensures Coherent(t) ==> Coherent(o.table)
  {
    var ho := GetHeader(t);
    if ho.result.Err? then Outcome(Err(ho.result.error), ho.table)
    else
      var h := ho.result.value;
      RecordAtOffset(ho.table, RecordOffset(h, index), h.recordLength)
  }

  /** The rest of `Table#record` at offset `off`: a negative offset raises;
      read the flag byte (nil at the end of the file, or `'*'`, means
      deleted), read `record_length` bytes, ask for the columns, then build
      the record, which raises when the data read was nil. */
  function RecordAtOffset(t: Table, off: int, recordLength: nat): (o: Outcome<Option<Record>>)
    ensures o.table.file == t.file
    ensures Coherent(t) ==> Coherent(o.table)
  {
    if off < 0 then Outcome(Err(InvalidSeek), t)
    else
      var flag := ReadAt(t.file, off, 1);
      if flag.data.None? || flag.data.value == [TOMBSTONE] then Outcome(Ok(None), t.(pos := flag.pos))
      else
        var rd := ReadAt(t.file, flag.pos, recordLength);
        var co := GetColumns(t.(pos := rd.pos));
        if co.result.Err? then Outcome(Err(co.result.error), co.table)
        else if rd.data.None? then Outcome(Err(MissingRecordData), co.table)
        else Outcome(Ok(Some(Record(rd.data.value, co.result.value))), co.table)
  }

  /** Record `index` as the file lays it out, with no cursor: the header
      must read, then the record at its offset. */
  function RecordOf(file: seq<Byte>, index: int): (r: Result<Option<Record>, TableError>)
    ensures r.Ok? && r.value.Some? ==> ValidColumns(r.value.value.columns)
    ensures r.Ok? && r.value.Some? ==> ParseHeader(file).Ok? && |r.value.value.data| <= ParseHeader(file).value.recordLength
    ensures ParseHeader(file).Err? ==> r == Err(HeaderFailed(ParseHeader(file).error))
    ensures ParseHeader(file).Ok? ==>
      var h := ParseHeader(file).value;
      var off := RecordOffset(h, index);
      (off < 0 ==> r == Err(InvalidSeek))
      && (0 <= off && (off >= |file| || file[off] == TOMBSTONE) ==> r == Ok(None))
      && (0 <= off < |file| && file[off] != TOMBSTONE ==>
            (r.Ok? <==> ColumnsOf(file).Ok? && (h.recordLength == 0 || off + 1 < |file|))
            && (r.Ok? ==> r.value.Some?))
    ensures r.Ok? && r.value.Some? ==>
      ParseHeader(file).Ok? && ColumnsOf(file).Ok? && r.value.value.columns == ColumnsOf(file).value
      && var off := RecordOffset(ParseHeader(file).value, index);
         var d := r.value.value.data;
         0 <= off && off + 1 + |d| <= |file| && d == file[off + 1..off + 1 + |d|]
  {
    var h := HeaderResult(file);
    if h.Err? then Err(h.error)
    else RecordIn(file, RecordOffset(h.value, index), h.value.recordLength, ColumnsOf(file))
  }

  /** The record at offset `off` as the file lays it out: the offset must
      not be negative; a missing or `'*'` flag byte means deleted; otherwise
      the columns must read, and the record holds the `recordLength` bytes
      after the flag, cut short at the end of the file, of which there must
      be some unless the length is zero. */
  function RecordIn(file: seq<Byte>, off: int, recordLength: nat, cols: Result<seq<Column>, TableError>): (r: Result<Option<Record>, TableError>)
    requires cols.Ok? ==> ValidColumns(cols.value)
    ensures off < 0 ==> r == Err(InvalidSeek)
    ensures 0 <= off && (off >= |file| || file[off] == TOMBSTONE) ==> r == Ok(None)
    ensures 0 <= off < |file| && file[off] != TOMBSTONE ==>
      (r.Ok? <==> cols.Ok? && (recordLength == 0 || off + 1 < |file|)) && (r.Ok? ==> r.value.Some?)
      && (cols.Err? ==> r == Err(cols.error))
      && (cols.Ok? && recordLength > 0 && off + 1 == |file| ==> r == Err(MissingRecordData))
    ensures r.Ok? && r.value.Some? ==> cols.Ok? && r.value.value.columns == cols.value && ValidColumns(cols.value)
    ensures r.Ok? && r.value.Some? ==> |r.value.value.data| <= recordLength
    ensures r.Ok? && r.value.Some? ==>
      var d := r.value.value.data;
      off + 1 + |d| <= |file| && d == file[off + 1..off + 1 + |d|]
      && (|d| == recordLength || off + 1 + |d| == |file|)
  {
    if off < 0 then Err(InvalidSeek)
    else if off >= |file| || file[off] == TOMBSTONE then Ok(None)
    else if cols.Err? then Err(cols.error)
    else if recordLength > 0 && off + 1 == |file| then Err(MissingRecordData)
    else
      var end := if off + 1 + recordLength <= |file| then off + 1 + recordLength else |file|;
      Ok(Some(Record(file[off + 1..end], cols.value)))
  }

  /** With truthful memos, reading a record through the cursor gives the
      record the file lays out. */
  lemma RecordThroughCursor(t: Table, index: int)
    requires Coherent(t)
    ensures GetRecord(t, index).result == RecordOf(t.file, index)
  {
    var ho := GetHeader(t);
    if ho.result.Ok? {
      var h := ho.result.value;
      RecordAtOffsetReadsFile(ho.table, RecordOffset(h, index), h.recordLength);
    }
  }

  lemma RecordAtOffsetReadsFile(t: Table, off: int, recordLength: nat)
    requires Coherent(t)
    ensures RecordAtOffset(t, off, recordLength).result == RecordIn(t.file, off, recordLength, ColumnsOf(t.file))
  {
    var file := t.file;
    if 0 <= off < |file| {
      ReadAtSlice(file, off, 1);
      assert file[off..off + 1] == [file[off]];
      if file[off] != TOMBSTONE {
        var rd := ReadAt(file, off + 1, recordLength);
        assert GetColumns(t.(pos := rd.pos)).result == ColumnsOf(file);
        RecordBytes(file, off, recordLength);
      }
    }
  }

  /** The read after a live flag byte at `off`. */
  lemma RecordBytes(file: seq<Byte>, off: nat, recordLength: nat)
    requires off < |file|
    ensures var end := if off + 1 + recordLength <= |file| then off + 1 + recordLength else |file|;
      ReadAt(file, off + 1, recordLength).data
        == if recordLength > 0 && off + 1 == |file| then None else Some(file[off + 1..end])
  {
    ReadAtSlice(file, off + 1, recordLength);
  }

  /** Column `j` of a live record that lies wholly inside the file reads
      the bytes five past the record's offset (the flag byte and the four
      skipped bytes) plus the lengths of the columns before it. */
  lemma RecordFieldInFile(file: seq<Byte>, off: int, recordLength: nat, cols: Result<seq<Column>, TableError>, r: Record, j: nat)
    requires cols.Ok? ==> ValidColumns(cols.value)
    requires RecordIn(file, off, recordLength, cols) == Ok(Some(r))
    requires j < |r.columns| && SKIP + LengthSum(r.columns[..j + 1]) <= |r.data|
    ensures var start := off + 1 + SKIP + LengthSum(r.columns[..j]);
      start + r.columns[j].length <= |file|
      && NominalField(r.data, r.columns, j) == Some(file[start..start + r.columns[j].length])
  {
    var a := SKIP + LengthSum(r.columns[..j]);
    var b := SKIP + LengthSum(r.columns[..j + 1]);
    var lo := off + 1;
    assert r.data == file[lo..lo + |r.data|];
    NominalFieldSlice(r.data, r.columns, j);
    SliceOfSlice(file, lo, lo + |r.data|, a, b);
  }

  lemma SliceOfSlice(file: seq<Byte>, lo: nat, hi: nat, a: nat, b: nat)
    requires lo <= hi <= |file| && a <= b <= hi - lo
    ensures file[lo..hi][a..b] == file[lo + a..lo + b]
  {
    forall k | 0 <= k < b - a ensures file[lo..hi][a..b][k] == file[lo + a..lo + b][k] {
      assert file[lo..hi][a..b][k] == file[lo..hi][a + k] == file[lo + a + k];
    }
  }
}
