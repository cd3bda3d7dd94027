/** `ADT::Record`: the bytes of one row and the table's columns. Decoding
    skips four bytes, then lets each column read its length and cast it, in
    column order; the decoded attributes are memoised, so the accessors are
    functions of the column list and the decoded values. */
module Records {
  import opened Wrappers
  import opened Bytes
  import opened ColumnTypes
  import opened Columns

  /** Bytes at the start of a record's data that no column reads. */
  const SKIP: nat := 4

  datatype Record = Record(data: seq<Byte>, columns: seq<Column>)

  /** Column lengths a read can use; `Column.new` refuses any other. */
  predicate ValidColumns(cols: seq<Column>) {
    forall i | 0 <= i < |cols| :: cols[i].length >= 0
  }

  /** Total length of the columns. */
  function LengthSum(cols: seq<Column>): (n: nat)
    requires ValidColumns(cols)
    ensures cols == [] ==> n == 0
  {
    if cols == [] then 0 else LengthSum(cols[..|cols| - 1]) + cols[|cols| - 1].length
  }

  /** Adding one more column adds its length. */
  lemma LengthSumStep(cols: seq<Column>, k: nat)
    requires ValidColumns(cols) && k < |cols|
    ensures LengthSum(cols[..k + 1]) == LengthSum(cols[..k]) + cols[k].length
  {
    assert cols[..k + 1][..k] == cols[..k];
  }

  /** `attribute_map` from a cursor at `pos`: each column reads its length
      and casts what it read; the first cast that raises ends the decoding. */
  function DecodeFrom(data: seq<Byte>, pos: nat, cols: seq<Column>): (r: Result<seq<Value>, CastError>)
    requires ValidColumns(cols)
    ensures r.Ok? ==> |r.value| == |cols|
    decreases |cols|
  {
    if cols == [] then Ok([])
    else
      var rd := ReadAt(data, pos, cols[0].length);
      var v := TypeCast(cols[0], rd.data);
      if v.Err? then Err(v.error)
      else
        var rest := DecodeFrom(data, rd.pos, cols[1..]);
        if rest.Err? then Err(rest.error) else Ok([v.value] + rest.value)
  }

  /** The decoded values of a record, one per column, in column order. */
  function Values(r: Record): (vs: Result<seq<Value>, CastError>)
    requires ValidColumns(r.columns)
    ensures vs.Ok? ==> |vs.value| == |r.columns|
  {
    DecodeFrom(r.data, SKIP, r.columns)
  }

  /** What column `i` reads when it starts at its nominal offset: four
      skipped bytes plus the lengths of the columns before it. */
  function NominalField(data: seq<Byte>, cols: seq<Column>, i: nat): Option<seq<Byte>>
    requires ValidColumns(cols) && i < |cols|
  {
    ReadAt(data, SKIP + LengthSum(cols[..i]), cols[i].length).data
  }

  /** The cast of every column's nominal field, in column order. */
  function NominalCasts(data: seq<Byte>, cols: seq<Column>): (cs: seq<Result<Value, CastError>>)
    requires ValidColumns(cols)
    ensures |cs| == |cols|
    ensures forall i | 0 <= i < |cols| :: cs[i] == TypeCast(cols[i], NominalField(data, cols, i))
  {
    seq(|cols|, i requires 0 <= i < |cols| => TypeCast(cols[i], NominalField(data, cols, i)))
  }

  /** The values of a list of casts when none raises; otherwise the first
      cast's error. */
  function AllOk(cs: seq<Result<Value, CastError>>): (r: Result<seq<Value>, CastError>)
    ensures r.Ok? <==> forall i | 0 <= i < |cs| :: cs[i].Ok?
    ensures r.Ok? ==> |r.value| == |cs| && forall i | 0 <= i < |cs| :: cs[i] == Ok(r.value[i])
    ensures r.Err? ==> exists i | 0 <= i < |cs| :: cs[i] == Err(r.error) && forall j | 0 <= j < i :: cs[j].Ok?
    decreases |cs|
  {
    if cs == [] then Ok([])
    else if cs[0].Err? then Err(cs[0].error)
    else
      var rest := AllOk(cs[1..]);
      if rest.Err? then
        ghost var i :| 0 <= i < |cs[1..]| && cs[1..][i] == Err(rest.error) && forall j | 0 <= j < i :: cs[1..][j].Ok?;
        assert cs[i + 1] == Err(rest.error);
        Err(rest.error)
      else Ok([cs[0].value] + rest.value)
  }

  /** Each column consumes exactly its length, in order: decoding a record
      is casting the field at each column's nominal offset, four skipped
      bytes plus the lengths of the columns before it, and the first cast
      that raises decides the error. */
  lemma ValuesAtOffsets(r: Record)
    requires ValidColumns(r.columns)
    ensures Values(r) == AllOk(NominalCasts(r.data, r.columns))
  {
    var cs := NominalCasts(r.data, r.columns);
    assert r.columns[..0] == [];
    assert r.columns[0..] == r.columns;
    assert cs[0..] == cs;
    DecodeFromAtOffsets(r.data, r.columns, 0, SKIP);
  }

  /** One step of the decoding: the first column's cast, then the rest. */
  lemma DecodeFromStep(data: seq<Byte>, pos: nat, cols: seq<Column>)
    requires ValidColumns(cols) && cols != []
    ensures var rd := ReadAt(data, pos, cols[0].length);
      var c := TypeCast(cols[0], rd.data);
      var rest := DecodeFrom(data, rd.pos, cols[1..]);
      DecodeFrom(data, pos, cols) == (if c.Err? then Err(c.error) else if rest.Err? then Err(rest.error) else Ok([c.value] + rest.value))
  {
  }

  /** One step of `AllOk`. */
  lemma AllOkStep(cs: seq<Result<Value, CastError>>)
    requires cs != []
    ensures var rest := AllOk(cs[1..]);
      AllOk(cs) == (if cs[0].Err? then Err(cs[0].error) else if rest.Err? then Err(rest.error) else Ok([cs[0].value] + rest.value))
  {
  }

  /** The cursor after the columns before `k` is where their lengths put
      it, as far as any read can tell. */
  lemma CursorStep(data: seq<Byte>, cols: seq<Column>, k: nat, pos: nat)
    requires ValidColumns(cols) && k < |cols|
    requires SamePlace(data, pos, SKIP + LengthSum(cols[..k]))
    ensures ReadAt(data, pos, cols[k].length).data == NominalField(data, cols, k)
    ensures SamePlace(data, ReadAt(data, pos, cols[k].length).pos, SKIP + LengthSum(cols[..k + 1]))
  {
    ReadAtSamePlace(data, pos, SKIP + LengthSum(cols[..k]), cols[k].length);
    LengthSumStep(cols, k);
  }

  lemma {:induction false} DecodeFromAtOffsets(data: seq<Byte>, cols: seq<Column>, k: nat, pos: nat)
    requires ValidColumns(cols) && k <= |cols|
    requires SamePlace(data, pos, SKIP + LengthSum(cols[..k]))
    ensures DecodeFrom(data, pos, cols[k..]) == AllOk(NominalCasts(data, cols)[k..])
    decreases |cols| - k
  {
    var cs := NominalCasts(data, cols);
    if k == |cols| {
      assert cols[k..] == [] && cs[k..] == [];
    } else {
      var tail := cols[k..];
      assert tail[0] == cols[k] && tail[1..] == cols[k + 1..];
      assert cs[k..][0] == cs[k] && cs[k..][1..] == cs[k + 1..];
      CursorStep(data, cols, k, pos);
      DecodeFromStep(data, pos, tail);
      AllOkStep(cs[k..]);
      DecodeFromAtOffsets(data, cols, k + 1, ReadAt(data, pos, cols[k].length).pos);
    }
  }

  /** A column that fits in the data reads the bytes from its offset to the
      next column's offset. */
  lemma NominalFieldSlice(data: seq<Byte>, cols: seq<Column>, i: nat)
    requires ValidColumns(cols) && i < |cols|
    requires SKIP + LengthSum(cols[..i + 1]) <= |data|
    ensures LengthSum(cols[..i]) + cols[i].length == LengthSum(cols[..i + 1])
    ensures NominalField(data, cols, i) == Some(data[SKIP + LengthSum(cols[..i])..SKIP + LengthSum(cols[..i + 1])])
  {
    LengthSumStep(cols, i);
    ReadAtInside(data, SKIP + LengthSum(cols[..i]), cols[i].length);
  }

  /** Reads at or after the skipped prefix do not see it. */
  lemma ReadAtPastSkip(a: seq<Byte>, b: seq<Byte>, pos: nat, n: nat)
    requires |a| >= SKIP && |b| >= SKIP && a[SKIP..] == b[SKIP..] && pos >= SKIP
    ensures ReadAt(a, pos, n) == ReadAt(b, pos, n)
  {
    assert |a| == |a[SKIP..]| + SKIP == |b|;
    forall k | SKIP <= k < |a| ensures a[k] == b[k] {
      assert a[k] == a[SKIP..][k - SKIP];
      assert b[k] == b[SKIP..][k - SKIP];
    }
    if n > 0 && pos < |a| {
      var end := if pos + n <= |a| then pos + n else |a|;
      assert a[pos..end] == b[pos..end];
    }
  }

  lemma {:induction false} DecodeFromPastSkip(a: seq<Byte>, b: seq<Byte>, pos: nat, cols: seq<Column>)
    requires ValidColumns(cols)
    requires |a| >= SKIP && |b| >= SKIP && a[SKIP..] == b[SKIP..] && pos >= SKIP
    ensures DecodeFrom(a, pos, cols) == DecodeFrom(b, pos, cols)
    decreases |cols|
  {
    if cols != [] {
      ReadAtPastSkip(a, b, pos, cols[0].length);
      var rd := ReadAt(a, pos, cols[0].length);
      if rd.data.Some? {
        DecodeFromPastSkip(a, b, rd.pos, cols[1..]);
      } else {
        DecodeFromPastSkip(a, b, pos, cols[1..]);
      }
    }
  }

  /** The four skipped bytes never influence a value: records whose data
      differ only there decode alike. */
  lemma SkippedBytesIgnored(a: seq<Byte>, b: seq<Byte>, cols: seq<Column>)
    requires ValidColumns(cols)
    requires |a| >= SKIP && |b| >= SKIP && a[SKIP..] == b[SKIP..]
    ensures Values(Record(a, cols)) == Values(Record(b, cols))
  {
    DecodeFromPastSkip(a, b, SKIP, cols);
  }

  /* ---- the attribute hash ---- */

  /** `Hash[attribute_map]`: each column's name to its value; when names
      repeat, the later pair overwrites the earlier. */
  function AttributeMap(cols: seq<Column>, vals: seq<Value>): (m: map<string, Value>)
    requires |cols| == |vals|
    ensures forall i | 0 <= i < |cols| :: cols[i].name in m
    ensures forall k | k in m :: exists i | 0 <= i < |cols| :: cols[i].name == k
    decreases |cols|
  {
    if cols == [] then map[]
    else
      var n := |cols| - 1;
      AttributeMap(cols[..n], vals[..n])[cols[n].name := vals[n]]
  }

  /** No later column has the name of column `i`. */
  predicate LastWithName(cols: seq<Column>, i: nat)
    requires i < |cols|
  {
    forall j | i < j < |cols| :: cols[j].name != cols[i].name
  }

  /** The later duplicate wins: a name maps to the value of the last column
      that has it. */
  lemma {:induction false} LaterColumnWins(cols: seq<Column>, vals: seq<Value>, i: nat)
    requires |cols| == |vals| && i < |cols| && LastWithName(cols, i)
    ensures AttributeMap(cols, vals)[cols[i].name] == vals[i]
    decreases |cols|
  {
    var n := |cols| - 1;
    AttributeMapStep(cols, vals);
    if i < n {
      LastWithNamePrefix(cols, i, n);
      LaterColumnWins(cols[..n], vals[..n], i);
    }
  }

  lemma AttributeMapStep(cols: seq<Column>, vals: seq<Value>)
    requires |cols| == |vals| && cols != []
    ensures var n := |cols| - 1;
      AttributeMap(cols, vals) == AttributeMap(cols[..n], vals[..n])[cols[n].name := vals[n]]
  {
  }

  lemma LastWithNamePrefix(cols: seq<Column>, i: nat, n: nat)
    requires i < n <= |cols| && LastWithName(cols, i)
    ensures LastWithName(cols[..n], i) && cols[..n][i] == cols[i]
    ensures n < |cols| ==> cols[n].name != cols[i].name
  {
  }

  /** `Record#attributes`. */
  function Attributes(r: Record): (m: Result<map<string, Value>, CastError>)
    requires ValidColumns(r.columns)
    ensures m.Ok? <==> Values(r).Ok?
    ensures m.Ok? ==> forall i | 0 <= i < |r.columns| :: r.columns[i].name in m.value
  {
    var vs :- Values(r);
    Ok(AttributeMap(r.columns, vs))
  }

  /** `Record#to_a`: one entry per column, each the hash's value for that
      column's name. */
  function ToA(cols: seq<Column>, vals: seq<Value>): (a: seq<Value>)
    requires |cols| == |vals|
    ensures |a| == |cols|
    ensures forall i | 0 <= i < |cols| :: a[i] == AttributeMap(cols, vals)[cols[i].name]
  {
    var m := AttributeMap(cols, vals);
    seq(|cols|, i requires 0 <= i < |cols| => m[cols[i].name])
  }

  /** All column names differ. */
  predicate DistinctNames(cols: seq<Column>) {
    forall i, j | 0 <= i < j < |cols| :: cols[i].name != cols[j].name
  }

  /** With distinct names, `to_a` gives back the decoded values in column
      order; with a repeated name, every column of that name shows the last
      one's value. */
  lemma ToAIsValues(cols: seq<Column>, vals: seq<Value>)
    requires |cols| == |vals|
    ensures DistinctNames(cols) ==> ToA(cols, vals) == vals
    ensures forall i | 0 <= i < |cols| && LastWithName(cols, i) :: ToA(cols, vals)[i] == vals[i]
  {
    forall i | 0 <= i < |cols| && LastWithName(cols, i) ensures ToA(cols, vals)[i] == vals[i] {
      LaterColumnWins(cols, vals, i);
    }
    if DistinctNames(cols) {
      forall i | 0 <= i < |cols| ensures ToA(cols, vals)[i] == vals[i] {
        assert LastWithName(cols, i);
      }
    }
  }

  /* ---- lookup by name or alias ---- */

  /** Position of the first entry equal to `key`. */
  function FirstIndexOf(names: seq<string>, key: string): (r: Option<nat>)
    ensures r.Some? ==> r.value < |names| && names[r.value] == key
    ensures r.Some? ==> forall j | 0 <= j < r.value :: names[j] != key
    ensures r.None? ==> forall j | 0 <= j < |names| :: names[j] != key
  {
    if names == [] then None
    else if names[0] == key then Some(0)
    else match FirstIndexOf(names[1..], key)
      case None => None
      case Some(i) => Some(i + 1)
  }

  /** `underscored_column_names`. */
  function AliasNames(cols: seq<Column>): (us: seq<string>)
    ensures |us| == |cols|
    ensures forall i | 0 <= i < |cols| :: us[i] == UnderscoredName(cols[i].name)
  {
    seq(|cols|, i requires 0 <= i < |cols| => UnderscoredName(cols[i].name))
  }

  /** `Record#[]`: the value stored under `key` if some column has that
      name; otherwise the value of the first column whose underscored name
      is `key`; otherwise nil. */
  function Lookup(cols: seq<Column>, vals: seq<Value>, key: string): (v: Value)
    requires |cols| == |vals|
    ensures (exists i | 0 <= i < |cols| :: cols[i].name == key) ==> v == AttributeMap(cols, vals)[key]
    ensures (forall i | 0 <= i < |cols| :: cols[i].name != key) ==>
      match FirstIndexOf(AliasNames(cols), key)
      case Some(i) => v == AttributeMap(cols, vals)[cols[i].name]
      case None => v == Null
  {
    var m := AttributeMap(cols, vals);
    if key in m then m[key]
    else match FirstIndexOf(AliasNames(cols), key)
      case Some(i) => m[cols[i].name]
      case None => Null
  }

  /** Looking a column up by its own name, when no later column shares it,
      gives that column's value. */
  lemma LookupByName(cols: seq<Column>, vals: seq<Value>, i: nat)
    requires |cols| == |vals| && i < |cols| && LastWithName(cols, i)
    ensures Lookup(cols, vals, cols[i].name) == vals[i]
  {
    LaterColumnWins(cols, vals, i);
  }

  /** Looking a column up by its alias gives its value when no column is
      named like the alias, no earlier column has the same alias and no
      later column shares its name. */
  lemma LookupByAlias(cols: seq<Column>, vals: seq<Value>, i: nat)
    requires |cols| == |vals| && i < |cols| && LastWithName(cols, i)
    requires forall j | 0 <= j < |cols| :: cols[j].name != UnderscoredName(cols[i].name)
    requires forall j | 0 <= j < i :: UnderscoredName(cols[j].name) != UnderscoredName(cols[i].name)
    ensures Lookup(cols, vals, UnderscoredName(cols[i].name)) == vals[i]
  {
    LaterColumnWins(cols, vals, i);
    var key := UnderscoredName(cols[i].name);
    var us := AliasNames(cols);
    FirstIndexOfIs(us, key, i);
    assert key !in AttributeMap(cols, vals);
  }

  /** The first occurrence is the one no earlier entry equals. */
  lemma FirstIndexOfIs(names: seq<string>, key: string, i: nat)
    requires i < |names| && names[i] == key
    requires forall j | 0 <= j < i :: names[j] != key
    ensures FirstIndexOf(names, key) == Some(i)
  {
  }

  /* ---- equality and matching ---- */

  /** A double pattern with every bit but the sign clear: +0.0 or -0.0. */
  predicate IsZero(bits: nat) {
    bits % SIGN_BIT == 0
  }

  /** The instant a timestamp names, in seconds from the start of Julian
      day 0 in a time zone with a fixed offset. */
  function Instant(v: Value): int
    requires v.Timestamp?
  {
    v.day * 86400 + v.seconds
  }

  /** Ruby's `==` on two values decoded by separate calls: doubles compare
      as numbers (NaN equals nothing, the two zeros are equal), timestamps
      as instants, every other value by its contents. */
  predicate SameValue(a: Value, b: Value) {
    if a.Double? && b.Double? then
      !IsNaN(a.bits) && !IsNaN(b.bits) && (a.bits == b.bits || (IsZero(a.bits) && IsZero(b.bits)))
    else if a.Timestamp? && b.Timestamp? then Instant(a) == Instant(b)
    else a == b
  }

  /** A timestamp a whole day of seconds past midnight is `==` to midnight
      of the next day. */
  lemma TimestampsCompareAsInstants(day: nat, seconds: nat)
    ensures SameValue(Timestamp(day, seconds + 86400), Timestamp(day + 1, seconds))
    ensures !SameValue(Timestamp(day, seconds), Timestamp(day, seconds + 1))
  {
  }

  /** `Hash#==` on two attribute hashes: the same keys, and `==` values at
      each key. */
  predicate SameAttributes(m: map<string, Value>, n: map<string, Value>) {
    m.Keys == n.Keys && forall k | k in m :: SameValue(m[k], n[k])
  }

  /** `Record#==` on two decoded records: their attribute hashes are
      equal. */
  function Equal(cols: seq<Column>, vals: seq<Value>, otherCols: seq<Column>, otherVals: seq<Value>): (b: bool)
    requires |cols| == |vals| && |otherCols| == |otherVals|
    ensures b <==>
      (forall i | 0 <= i < |cols| :: cols[i].name in AttributeMap(otherCols, otherVals))
      && (forall j | 0 <= j < |otherCols| :: otherCols[j].name in AttributeMap(cols, vals))
      && (forall i | 0 <= i < |cols| && LastWithName(cols, i) :: SameValue(vals[i], AttributeMap(otherCols, otherVals)[cols[i].name]))
  {
    var m := AttributeMap(cols, vals);
    var n := AttributeMap(otherCols, otherVals);
    EqualByColumns(cols, vals, n);
    SameAttributes(m, n)
  }

  /** Comparing the hash of `cols` key by key is comparing, at each name, the
      value of the last column that has it. */
  lemma EqualByColumns(cols: seq<Column>, vals: seq<Value>, n: map<string, Value>)
    requires |cols| == |vals|
    ensures var m := AttributeMap(cols, vals);
      (forall k | k in m :: k in n && SameValue(m[k], n[k]))
      <==> (forall i | 0 <= i < |cols| && LastWithName(cols, i) :: cols[i].name in n && SameValue(vals[i], n[cols[i].name]))
  {
    var m := AttributeMap(cols, vals);
    forall i | 0 <= i < |cols| && LastWithName(cols, i) ensures m[cols[i].name] == vals[i] {
      LaterColumnWins(cols, vals, i);
    }
    forall k | k in m ensures exists i | 0 <= i < |cols| :: cols[i].name == k && LastWithName(cols, i) {
      LastIndexOfName(cols, k);
    }
  }

  /** A name some column has is the name of a last such column. */
  lemma {:induction false} LastIndexOfName(cols: seq<Column>, k: string)
    requires exists i | 0 <= i < |cols| :: cols[i].name == k
    ensures exists i | 0 <= i < |cols| :: cols[i].name == k && LastWithName(cols, i)
    decreases |cols|
  {
    var n := |cols| - 1;
    if cols[n].name != k {
      var p := cols[..n];
      assert exists i | 0 <= i < |p| :: p[i].name == k by {
        var i :| 0 <= i < |cols| && cols[i].name == k;
        assert p[i] == cols[i];
      }
      LastIndexOfName(p, k);
      var i :| 0 <= i < |p| && p[i].name == k && LastWithName(p, i);
      assert cols[i] == p[i];
      assert LastWithName(cols, i);
    } else {
      assert LastWithName(cols, n);
    }
  }

  /** `SameValue` is symmetric, so `==` on records is too. */
  lemma EqualSymmetric(cols: seq<Column>, vals: seq<Value>, otherCols: seq<Column>, otherVals: seq<Value>)
    requires |cols| == |vals| && |otherCols| == |otherVals|
    ensures Equal(cols, vals, otherCols, otherVals) == Equal(otherCols, otherVals, cols, vals)
  {
  }

  /** Some attribute is a NaN double. */
  predicate HoldsNaN(m: map<string, Value>) {
    exists k | k in m :: m[k].Double? && IsNaN(m[k].bits)
  }

  /** Two attribute hashes built separately from the same values (so no
      two of their NaN doubles are the same object) are `==` exactly when
      they hold no NaN: a NaN is `==` to no other object. */
  lemma SelfEqualUnlessNaN(m: map<string, Value>)
    ensures SameAttributes(m, m) <==> !HoldsNaN(m)
  {
    if HoldsNaN(m) {
      var k :| k in m && m[k].Double? && IsNaN(m[k].bits);
      assert !SameValue(m[k], m[k]);
    }
  }

  /** Two records decoded separately from the same bytes with the same
      columns are equal exactly when no attribute is a NaN double. */
  lemma SameBytesEqual(cols: seq<Column>, vals: seq<Value>)
    requires |cols| == |vals|
    ensures Equal(cols, vals, cols, vals) <==> !HoldsNaN(AttributeMap(cols, vals))
  {
    SelfEqualUnlessNaN(AttributeMap(cols, vals));
  }

  /** `Record#match?`: every option's value is `==` to what `[]` finds for
      its key; an empty option list matches every record. */
  function Match(cols: seq<Column>, vals: seq<Value>, options: seq<(string, Value)>): (b: bool)
    requires |cols| == |vals|
    ensures b <==> forall k | 0 <= k < |options| :: SameValue(Lookup(cols, vals, options[k].0), options[k].1)
    decreases |options|
  {
    if options == [] then true
    else SameValue(Lookup(cols, vals, options[0].0), options[0].1) && Match(cols, vals, options[1..])
  }
}
