/** `ADT::Schema`: the schema text a table's columns give, as an
    ActiveRecord migration or as the list of column hashes that the JSON
    schema serialises. */
module Schemas {
  import opened Wrappers
  import opened RubyText
  import opened Columns

  /** The two formats `schema` accepts, in the order its error lists them. */
  const ACTIVERECORD: string := "activerecord"
  const JSON: string := "json"
  const FORMATS: seq<string> := [ACTIVERECORD, JSON]

  /** The schema types. */
  const BOOLEAN_TYPE: string := ":boolean"
  const DATE_TYPE: string := ":date"
  const BINARY_TYPE: string := ":binary"
  const DECIMAL_TYPE: string := ":decimal, precision: 6"
  const INTEGER_TYPE: string := ":integer"
  const DATETIME_TYPE: string := ":datetime"
  /** `string_data_format`: the limit is always 255, whatever the column's
      length. */
  const STRING_TYPE: string := ":string, :limit => 255"

  /** The type codes `OTHER_DATA_TYPES` lists. */
  const OTHER_CODES: set<int> := {1, 3, 6, 10, 11, 12, 14, 15, 17}

  /** `OTHER_DATA_TYPES`; 15 is an auto-increment, written as an integer. */
  function OtherDataType(code: int): (t: Option<string>)
    ensures t.Some? <==> code in OTHER_CODES
  {
    match code
    case 1 => Some(BOOLEAN_TYPE)
    case 3 => Some(DATE_TYPE)
    case 6 => Some(BINARY_TYPE)
    case 10 => Some(DECIMAL_TYPE)
    case 11 => Some(INTEGER_TYPE)
    case 12 => Some(INTEGER_TYPE)
    case 14 => Some(DATETIME_TYPE)
    case 15 => Some(INTEGER_TYPE)
    case 17 => Some(DECIMAL_TYPE)
    case _ => None
  }

  /** `schema_data_type`: a listed code gives its entry, any other the
      string type. Each type is given by exactly these codes. */
  function SchemaDataType(code: int): (t: string)
    ensures t == BOOLEAN_TYPE <==> code == 1
    ensures t == DATE_TYPE <==> code == 3
    ensures t == BINARY_TYPE <==> code == 6
    ensures t == DECIMAL_TYPE <==> code == 10 || code == 17
    ensures t == INTEGER_TYPE <==> code == 11 || code == 12 || code == 15
    ensures t == DATETIME_TYPE <==> code == 14
    ensures t == STRING_TYPE <==> code !in OTHER_CODES
  {
    var other := OtherDataType(code);
    if other.Some? then other.value else STRING_TYPE
  }

  /** `activerecord_schema_definition`: the quoted alias, a comma, the
      type, and a line break. */
  function Definition(c: Column): (line: string)
    ensures |line| > 0 && line[0] == '"' && line[|line| - 1] == '\n'
  {
    "\"" + UnderscoredName(c.name) + "\", " + SchemaDataType(c.typeCode) + "\n"
  }

  /** Every schema type ends in four characters that no other one ends in. */
  function TypeOfEnding(e: string): (t: Option<string>)
    ensures t.Some? ==> |t.value| >= 5 && t.value[|t.value| - 4..] == e
  {
    if e == "lean" then Some(BOOLEAN_TYPE)
    else if e == "date" then Some(DATE_TYPE)
    else if e == "nary" then Some(BINARY_TYPE)
    else if e == "n: 6" then Some(DECIMAL_TYPE)
    else if e == "eger" then Some(INTEGER_TYPE)
    else if e == "time" then Some(DATETIME_TYPE)
    else if e == " 255" then Some(STRING_TYPE)
    else None
  }

  /** Reads a definition line back: the alias between the opening quote and
      the last `", ` before the type, and the type its ending names. */
  function ParseDefinition(line: string): (r: Option<(string, string)>)
    ensures r.Some? ==> line == "\"" + r.value.0 + "\", " + r.value.1 + "\n"
  {
    if |line| < 10 || line[0] != '"' || line[|line| - 1] != '\n' then None
    else
      var t := TypeOfEnding(line[|line| - 5..|line| - 1]);
      if t.None? || |line| < |t.value| + 5 then None
      else
        var cut := |line| - |t.value| - 4;
        if line[cut..] != "\", " + t.value + "\n" then None
        else
          QuotedSplit(line, cut);
          Some((line[1..cut], t.value))
  }

  lemma QuotedSplit(line: string, cut: nat)
    requires 1 <= cut <= |line| && line[0] == '"'
    ensures line == "\"" + line[1..cut] + line[cut..]
  {
    assert line == line[..1] + line[1..cut] + line[cut..];
  }

  /** A definition line names the column's alias and its schema type, and
      nothing else: reading it back gives both. */
  lemma DefinitionRoundTrip(c: Column)
    ensures ParseDefinition(Definition(c)) == Some((UnderscoredName(c.name), SchemaDataType(c.typeCode)))
  {
    LineRoundTrip(UnderscoredName(c.name), SchemaDataType(c.typeCode));
  }

  lemma LineRoundTrip(alias: string, t: string)
    requires t in {BOOLEAN_TYPE, DATE_TYPE, BINARY_TYPE, DECIMAL_TYPE, INTEGER_TYPE, DATETIME_TYPE, STRING_TYPE}
    ensures ParseDefinition("\"" + alias + "\", " + t + "\n") == Some((alias, t))
  {
    TypeOfOwnEnding(t);
    LinePieces("\"" + alias + "\", " + t + "\n", alias, t);
  }

  /** The ending of each type leads back to it. */
  lemma TypeOfOwnEnding(t: string)
    requires t in {BOOLEAN_TYPE, DATE_TYPE, BINARY_TYPE, DECIMAL_TYPE, INTEGER_TYPE, DATETIME_TYPE, STRING_TYPE}
    ensures |t| >= 5 && TypeOfEnding(t[|t| - 4..]) == Some(t)
  {
  }

  /** Where the alias and the type sit in a definition line. */
  lemma LinePieces(line: string, alias: string, t: string)
    requires line == "\"" + alias + "\", " + t + "\n" && |t| >= 4
    ensures |line| == |alias| + |t| + 5
    ensures line[0] == '"' && line[|line| - 1] == '\n'
    ensures line[|line| - 5..|line| - 1] == t[|t| - 4..]
    ensures line[|line| - |t| - 4..] == "\", " + t + "\n"
    ensures line[1..|line| - |t| - 4] == alias
  {
    assert line == ("\"" + alias) + ("\", " + t + "\n");
    assert line[|line| - |t| - 4..] == "\", " + t + "\n";
    assert line[..|line| - |t| - 4] == "\"" + alias;
    assert line[1..|line| - |t| - 4] == ("\"" + alias)[1..];
    assert line[|line| - 5..|line| - 1] == ("\", " + t + "\n")[|t| - 1..|t| + 3];
  }

  /** The `t.column` lines of `activerecord_schema`, one per column, in
      column order. */
  function ColumnLines(cols: seq<Column>): (s: string)
    ensures cols == [] <==> s == []
    decreases |cols|
  {
    if cols == [] then []
    else ColumnLines(cols[..|cols| - 1]) + ColumnLine(cols[|cols| - 1])
  }

  /** The lines of two column lists put together are the lines of the first
      followed by those of the second. */
  lemma {:induction false} ColumnLinesAppend(a: seq<Column>, b: seq<Column>)
    ensures ColumnLines(a + b) == ColumnLines(a) + ColumnLines(b)
    decreases |b|
  {
    if b == [] {
      assert a + b == a;
    } else {
      var n := |b| - 1;
      assert (a + b)[..|a + b| - 1] == a + b[..n];
      assert (a + b)[|a + b| - 1] == b[n];
      ColumnLinesUnfold(a + b);
      ColumnLinesUnfold(b);
      ColumnLinesAppend(a, b[..n]);
      AppendAssoc(ColumnLines(a), ColumnLines(b[..n]), ColumnLine(b[n]));
    }
  }

  /** One `t.column` line. */
  function ColumnLine(c: Column): string {
    "    t.column " + Definition(c)
  }

  lemma ColumnLinesUnfold(cols: seq<Column>)
    requires cols != []
    ensures ColumnLines(cols) == ColumnLines(cols[..|cols| - 1]) + ColumnLine(cols[|cols| - 1])
  {
  }

  lemma AppendAssoc(x: string, y: string, z: string)
    ensures (x + y) + z == x + (y + z)
  {
  }

  /** `columns.map(&:downcase).include?('id')`, over the column names: a
      table with its own `id` column asks for no generated one. */
  predicate HasIdColumn(cols: seq<Column>) {
    exists i | 0 <= i < |cols| :: Downcase(cols[i].name) == "id"
  }

  const SCHEMA_OPENING: string := "ActiveRecord::Schema.define do\n  create_table \""
  const NO_ID: string := ", {id: false}"
  const SCHEMA_CLOSING: string := "  end\nend"

  /** The text before the column lines. */
  function CreateTable(tableName: string, noId: bool): string {
    SCHEMA_OPENING + tableName + "\"" + (if noId then NO_ID else "") + " do |t|\n"
  }

  /** `activerecord_schema`: the opening naming the table, `{id: false}`
      exactly when a column is called `id` in any case, the column lines,
      and the closing. */
  function ActiveRecordSchema(tableName: string, cols: seq<Column>): (s: string)
    ensures var head := SCHEMA_OPENING + tableName + "\"";
      |head| < |s| && s[..|head|] == head
      && (s[|head|] == ',' <==> HasIdColumn(cols))
    ensures |s| >= |SCHEMA_CLOSING| && s[|s| - |SCHEMA_CLOSING|..] == SCHEMA_CLOSING
  {
    var head := SCHEMA_OPENING + tableName + "\"";
    var s := CreateTable(tableName, HasIdColumn(cols)) + ColumnLines(cols) + SCHEMA_CLOSING;
    assert s[|head|] == (if HasIdColumn(cols) then NO_ID else " do |t|\n")[0];
    assert s[..|head|] == head;
    s
  }

  /** One more column, that does not change whether there is an `id`
      column, adds exactly its line, just before the closing. */
  lemma OneMoreColumn(tableName: string, cols: seq<Column>, c: Column)
    requires HasIdColumn(cols + [c]) == HasIdColumn(cols)
    ensures var s := ActiveRecordSchema(tableName, cols);
      ActiveRecordSchema(tableName, cols + [c])
        == s[..|s| - |SCHEMA_CLOSING|] + ColumnLine(c) + SCHEMA_CLOSING
  {
    ColumnLinesAppend(cols, [c]);
    assert [c][..0] == [];
    ColumnLinesUnfold([c]);
    assert ColumnLines([c]) == ColumnLine(c);
    var s := ActiveRecordSchema(tableName, cols);
    var head := CreateTable(tableName, HasIdColumn(cols));
    ActiveRecordSchemaPieces(tableName, cols);
    ClosingAlgebra(head, ColumnLines(cols), ColumnLine(c));
  }

  lemma ActiveRecordSchemaPieces(tableName: string, cols: seq<Column>)
    ensures ActiveRecordSchema(tableName, cols) == CreateTable(tableName, HasIdColumn(cols)) + ColumnLines(cols) + SCHEMA_CLOSING
  {
  }

  lemma ClosingAlgebra(head: string, lines: string, line: string)
    ensures var s := head + lines + SCHEMA_CLOSING;
      |s| >= |SCHEMA_CLOSING|
      && head + (lines + line) + SCHEMA_CLOSING == s[..|s| - |SCHEMA_CLOSING|] + line + SCHEMA_CLOSING
  {
    var s := head + lines + SCHEMA_CLOSING;
    assert s[..|s| - |SCHEMA_CLOSING|] == head + lines;
  }

  /** `json_schema` before serialisation: each column's hash, in order. */
  function JsonHashes(cols: seq<Column>): (hs: seq<map<string, HashValue>>)
    ensures |hs| == |cols|
    ensures forall i | 0 <= i < |cols| :: FromHash(hs[i]) == Some(cols[i])
  {
    seq(|cols|, i requires 0 <= i < |cols| => ToHash(cols[i]))
  }

  datatype SchemaText = ActiveRecordText(text: string) | JsonText(hashes: seq<map<string, HashValue>>)

  /** `FORMATS.join(sep)`. */
  function Join(xs: seq<string>, sep: string): string
    decreases |xs|
  {
    if xs == [] then [] else if |xs| == 1 then xs[0] else xs[0] + sep + Join(xs[1..], sep)
  }

  /** What follows the format's name in the error message: the sentence
      and the formats joined by `, `. */
  function ErrorTail(): string {
    " is not a valid schema. Valid schemas are: " + Join(FORMATS, ", ") + "."
  }

  lemma ErrorTailText()
    ensures ErrorTail() == " is not a valid schema. Valid schemas are: activerecord, json."
  {
    assert FORMATS[1..] == [JSON];
    assert Join([JSON], ", ") == JSON;
  }

  /** `Table#schema`: dispatch on the format; any other format raises
      `ArgumentError` with a message that names it and lists the valid
      ones. */
  function Schema(format: string, tableName: string, cols: seq<Column>): (r: Result<SchemaText, string>)
    ensures r.Ok? <==> format in FORMATS
    ensures format == ACTIVERECORD ==> r == Ok(ActiveRecordText(ActiveRecordSchema(tableName, cols)))
    ensures format == JSON ==>
      (r.Ok? && r.value.JsonText? && |r.value.hashes| == |cols|
       && forall i | 0 <= i < |cols| :: FromHash(r.value.hashes[i]) == Some(cols[i]))
    ensures r.Err? ==>
      r.error == ":" + format + " is not a valid schema. Valid schemas are: activerecord, json."
  {
    ErrorTailText();
    if format == ACTIVERECORD then Ok(ActiveRecordText(ActiveRecordSchema(tableName, cols)))
    else if format == JSON then Ok(JsonText(JsonHashes(cols)))
    else
      Err(":" + format + ErrorTail())
  }
}
