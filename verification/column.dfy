/** `ADT::Column`: a cleaned name, the raw type code and the byte length of
    one field of a record, the strategy that casts it, and its underscored
    alias. */
module Columns {
  import opened Wrappers
  import opened Bytes
  import opened RubyText
  import opened ColumnTypes

  datatype Column = Column(name: string, typeCode: int, length: int)

  /** The two errors `Column.new` raises. */
  datatype ColumnError = LengthError | NameError

  /** Characters the name cleaning keeps: 0x20 to 0x7E. */
  predicate IsPrintable(c: char) {
    ' ' <= c <= '~'
  }

  predicate AllPrintable(s: string) {
    forall i | 0 <= i < |s| :: IsPrintable(s[i])
  }

  /** What every constructed column satisfies. */
  predicate WellFormed(c: Column) {
    |c.name| > 0 && AllPrintable(c.name) && c.length >= 0
  }

  /** `partition("\x00").first`: the text before the first NUL, or all of it. */
  function BeforeNul(s: string): (r: string)
    ensures |r| <= |s| && r == s[..|r|]
    ensures forall i | 0 <= i < |r| :: r[i] != '\0'
    ensures |r| < |s| ==> s[|r|] == '\0'
  {
    if s == [] || s[0] == '\0' then [] else [s[0]] + BeforeNul(s[1..])
  }

  /** `gsub(/[^\x20-\x7E]/, '')`: the printable characters, in order. */
  function KeepPrintable(s: string): (r: string)
    ensures AllPrintable(r)
    ensures |r| <= |s|
    ensures AllPrintable(s) ==> r == s
  {
    if s == [] then []
    else (if IsPrintable(s[0]) then [s[0]] else []) + KeepPrintable(s[1..])
  }

  /** The filter keeps every occurrence of each printable character and no
      occurrence of any other. */
  lemma {:induction false} KeepPrintableCounts(s: string)
    ensures forall c :: multiset(KeepPrintable(s))[c] == if IsPrintable(c) then multiset(s)[c] else 0
    decreases |s|
  {
    if s != [] {
      KeepPrintableCounts(s[1..]);
      KeepPrintableCons(s);
      assert s == [s[0]] + s[1..];
    }
  }

  /** A single character is kept exactly when it is printable. */
  lemma KeepPrintableSingle(c: char)
    ensures KeepPrintable([c]) == if IsPrintable(c) then [c] else []
  {
    assert [c][1..] == [];
  }

  /** Filtering distributes over concatenation, so each character is kept or
      dropped on its own. */
  lemma {:induction false} KeepPrintableAppend(a: string, b: string)
    ensures KeepPrintable(a + b) == KeepPrintable(a) + KeepPrintable(b)
    decreases |a|
  {
    if a == [] {
      assert a + b == b;
    } else {
      KeepPrintableAppend(a[1..], b);
      assert (a + b)[0] == a[0];
      assert (a + b)[1..] == a[1..] + b;
      KeepPrintableCons(a + b);
      KeepPrintableCons(a);
    }
  }

  lemma KeepPrintableCons(s: string)
    requires s != []
    ensures KeepPrintable(s) == (if IsPrintable(s[0]) then [s[0]] else []) + KeepPrintable(s[1..])
  {
  }

  /** `Column#clean`: strip, cut before the first NUL, drop every character
      outside 0x20..0x7E. A name that is already clean is left as it is. */
  function Clean(raw: string): (r: string)
    ensures AllPrintable(r)
    ensures |r| <= |raw|
    ensures AllPrintable(raw) && Trimmed(raw) ==> r == raw
    ensures r == KeepPrintable(BeforeNul(Strip(raw)))
    ensures forall c :: multiset(r)[c] == if IsPrintable(c) then multiset(BeforeNul(Strip(raw)))[c] else 0
  {
    KeepPrintableCounts(BeforeNul(Strip(raw)));
    CleanNameUnchanged(raw);
    KeepPrintable(BeforeNul(Strip(raw)))
  }

  lemma CleanNameUnchanged(raw: string)
    ensures AllPrintable(raw) && Trimmed(raw) ==> KeepPrintable(BeforeNul(Strip(raw))) == raw
  {
    if AllPrintable(raw) && Trimmed(raw) {
      assert raw[..0] == [] && raw[|raw|..] == [];
      StripOfPadded(raw, raw, 0);
      assert BeforeNul(raw) == raw;
    }
  }

  /** `Column.new`: the length is validated before the name, so a negative
      length wins over an empty name; length 0 is accepted. */
  function New(raw: string, typeCode: int, length: int): (r: Result<Column, ColumnError>)
    ensures r == Err(LengthError) <==> length < 0
    ensures r == Err(NameError) <==> length >= 0 && Clean(raw) == []
    ensures r.Ok? ==> r.value == Column(Clean(raw), typeCode, length) && WellFormed(r.value)
  {
    var name := Clean(raw);
    if length < 0 then Err(LengthError)
    else if name == [] then Err(NameError)
    else Ok(Column(name, typeCode, length))
  }

  /** `TYPE_CAST_CLASS` with its String default. */
  function CodeKind(code: int): (k: Kind)
    ensures k != NilKind
    ensures k == BooleanKind <==> code == 1
    ensures k == DateKind <==> code == 3
    ensures k == IntegerKind <==> code == 11
    ensures k == DateTimeKind <==> code == 14
    ensures k == CurDoubleKind <==> code == 17
    ensures k == StringKind <==> code !in {1, 3, 11, 14, 17}
  {
    match code
    case 1 => BooleanKind
    case 3 => DateKind
    case 4 => StringKind
    case 11 => IntegerKind
    case 14 => DateTimeKind
    case 17 => CurDoubleKind
    case _ => StringKind
  }

  /** `type_cast_class`: a zero-length column casts with `Nil` whatever its
      type; any other looks its type up. */
  function TypeCastKind(c: Column): (k: Kind)
    ensures k == NilKind <==> c.length == 0
    ensures c.length != 0 ==> k == CodeKind(c.typeCode)
  {
    if c.length == 0 then NilKind else CodeKind(c.typeCode)
  }

  /** `Column#type_cast`, delegated to the column's strategy. */
  function TypeCast(c: Column, field: Option<seq<Byte>>): (r: Result<Value, CastError>)
    ensures c.length == 0 ==> r == Ok(Null)
    ensures r.Ok? ==> OfKind(r.value, TypeCastKind(c))
  {
    Cast(TypeCastKind(c), field)
  }

  /** `Column#flag(n)`: the strategy's flag, followed by `n` in decimal only
      for the text strategy, whose flag is "A". */
  function Flag(c: Column, n: int): (r: string)
    ensures TypeCastKind(c) != StringKind ==> |r| <= 1 && r == KindFlag(TypeCastKind(c))
    ensures TypeCastKind(c) == StringKind ==> |r| >= 2 && r[0] == 'A'
    ensures TypeCastKind(c) == StringKind && n >= 0 ==>
      (forall i | 1 <= i < |r| :: IsDigit(r[i])) && DecimalValue(r[1..]) == n
  {
    var f := KindFlag(TypeCastKind(c));
    if f == "A" then
      assert ("A" + IntToDecimal(n))[1..] == IntToDecimal(n);
      NonNegativeDecimalRoundTrip(n);
      f + IntToDecimal(n)
    else f
  }

  /** A value of `to_hash`. */
  datatype HashValue = StringField(s: string) | IntegerField(i: int)

  /** `Column#to_hash`: exactly the name, type and length. */
  function ToHash(c: Column): (h: map<string, HashValue>)
    ensures h.Keys == {"name", "type", "length"}
    ensures FromHash(h) == Some(c)
  {
    map["name" := StringField(c.name), "type" := IntegerField(c.typeCode), "length" := IntegerField(c.length)]
  }

  /** Reads a column back from the three entries of its hash. */
  function FromHash(h: map<string, HashValue>): Option<Column> {
    if "name" in h && "type" in h && "length" in h
       && h["name"].StringField? && h["type"].IntegerField? && h["length"].IntegerField?
    then Some(Column(h["name"].s, h["type"].i, h["length"].i))
    else None
  }

  /* ---- underscored_name ---- */

  predicate IsLowerOrDigit(c: char) {
    IsLower(c) || IsDigit(c)
  }

  predicate NoUpper(s: string) {
    forall i | 0 <= i < |s| :: !IsUpper(s[i])
  }

  /** No two adjacent colons, so there is nothing left for `gsub(/::/, '/')`. */
  predicate NoDoubleColon(s: string) {
    forall i | 0 <= i < |s| - 1 :: !(s[i] == ':' && s[i + 1] == ':')
  }

  lemma NoDoubleColonAppend(a: string, b: string)
    ensures NoDoubleColon(a) && NoDoubleColon(b) && (a == [] || b == [] || a[|a| - 1] != ':' || b[0] != ':')
      ==> NoDoubleColon(a + b)
  {
    if NoDoubleColon(a) && NoDoubleColon(b) && (a == [] || b == [] || a[|a| - 1] != ':' || b[0] != ':') {
      var ab := a + b;
      forall i | 0 <= i < |ab| - 1 ensures !(ab[i] == ':' && ab[i + 1] == ':') {
        if i + 1 < |a| {
          assert ab[i] == a[i] && ab[i + 1] == a[i + 1];
        } else if i >= |a| {
          assert ab[i] == b[i - |a|] && ab[i + 1] == b[i + 1 - |a|];
        }
      }
    }
  }

  lemma NoDoubleColonSuffix(s: string, k: nat)
    requires k <= |s|
    ensures NoDoubleColon(s) ==> NoDoubleColon(s[k..])
  {
    if NoDoubleColon(s) {
      forall i | 0 <= i < |s[k..]| - 1 ensures !(s[k..][i] == ':' && s[k..][i + 1] == ':') {
        assert s[k..][i] == s[k + i] && s[k..][i + 1] == s[k + i + 1];
      }
    }
  }

  /** `gsub(/::/, '/')`, scanning left to right: no double colon survives,
      and text without one is left as it is. */
  function ColonsToSlash(s: string): (r: string)
    ensures NoDoubleColon(r)
    ensures r != [] && r[0] == ':' ==> s != [] && s[0] == ':'
    ensures NoDoubleColon(s) ==> r == s
    decreases |s|
  {
    if |s| >= 2 && s[0] == ':' && s[1] == ':' then
      var rest := ColonsToSlash(s[2..]);
      NoDoubleColonAppend("/", rest);
      "/" + rest
    else if s == [] then []
    else
      var rest := ColonsToSlash(s[1..]);
      NoDoubleColonAppend([s[0]], rest);
      NoDoubleColonSuffix(s, 1);
      assert s == [s[0]] + s[1..];
      [s[0]] + rest
  }

  /** No character of `s` is a colon. */
  predicate NoColon(s: string) {
    forall i | 0 <= i < |s| :: s[i] != ':'
  }

  /** Each `::` becomes one `/`: past a colon-free prefix, the first double
      colon is replaced and the scan resumes right after it. */
  lemma {:induction false} ColonsToSlashAt(a: string, b: string)
    requires NoColon(a)
    ensures ColonsToSlash(a + "::" + b) == a + "/" + ColonsToSlash(b)
    decreases |a|
  {
    if a == [] {
      ColonsAtEmpty(a, b);
    } else {
      NoColonTail(a);
      ColonsToSlashAt(a[1..], b);
      ColonsAtStep(a, b);
    }
  }

  lemma ColonsAtEmpty(a: string, b: string)
    requires a == []
    ensures ColonsToSlash(a + "::" + b) == a + "/" + ColonsToSlash(b)
  {
    var r := ColonsToSlash(b);
    assert a + "::" + b == "::" + b;
    assert a + "/" + r == "/" + r;
    ColonsToSlashOfColons(b);
  }

  lemma ColonsAtStep(a: string, b: string)
    requires a != [] && a[0] != ':'
    requires ColonsToSlash(a[1..] + "::" + b) == a[1..] + "/" + ColonsToSlash(b)
    ensures ColonsToSlash(a + "::" + b) == a + "/" + ColonsToSlash(b)
  {
    ColonsToSlashOfOther(a, b);
    ColonsStepAlgebra(a, ColonsToSlash(b));
  }

  lemma ColonsToSlashOfColons(b: string)
    ensures ColonsToSlash("::" + b) == "/" + ColonsToSlash(b)
  {
    var s := "::" + b;
    assert s[0] == ':' && s[1] == ':' && s[2..] == b;
  }

  lemma NoColonTail(a: string)
    requires a != [] && NoColon(a)
    ensures a[0] != ':' && NoColon(a[1..])
  {
    forall i | 0 <= i < |a[1..]| ensures a[1..][i] != ':' {
      assert a[1..][i] == a[i + 1];
    }
  }

  lemma ColonsToSlashOfOther(a: string, b: string)
    requires a != [] && a[0] != ':'
    ensures ColonsToSlash(a + "::" + b) == [a[0]] + ColonsToSlash(a[1..] + "::" + b)
  {
    var s := a + "::" + b;
    assert s[0] == a[0];
    assert s[1..] == a[1..] + "::" + b;
  }

  lemma ColonsStepAlgebra(a: string, rest: string)
    requires a != []
    ensures [a[0]] + (a[1..] + "/" + rest) == a + "/" + rest
  {
    assert a == [a[0]] + a[1..];
  }

  /** `ColonsToSlashAt` on a name with one `::` between colon-free parts. */
  lemma ColonsToSlashExample(s: string)
    requires s == "A::B"
    ensures ColonsToSlash(s) == "A/B"
  {
    var a, b := "A", "B";
    assert s == a + "::" + b;
    ColonsToSlashAt(a, b);
    NoColonNoDoubleColon(b);
  }

  lemma NoColonNoDoubleColon(s: string)
    ensures NoColon(s) ==> NoDoubleColon(s)
  {
  }

  /** Length of the run of capitals `s` starts with. */
  function UpperRun(s: string): (n: nat)
    ensures n <= |s|
    ensures forall i | 0 <= i < n :: IsUpper(s[i])
    ensures n < |s| ==> !IsUpper(s[n])
  {
    if s != [] && IsUpper(s[0]) then 1 + UpperRun(s[1..]) else 0
  }

  /** `gsub(/([A-Z]+)([A-Z][a-z])/, '\1_\2')`. A match can only start at the
      head of a run of capitals and must take the whole run (the greedy
      `[A-Z]+` backs off one capital), so the scan moves from run to run: a
      run of two or more capitals followed by a lower-case letter gets an
      underscore before its last capital. */
  function SplitAcronyms(s: string): (r: string)
    ensures s != [] ==> r != [] && r[0] == s[0]
    decreases |s|
  {
    if s == [] then []
    else
      var n := UpperRun(s);
      if n >= 2 && n < |s| && IsLower(s[n]) then s[..n - 1] + "_" + s[n - 1..n + 1] + SplitAcronyms(s[n + 1..])
      else if n == 0 then [s[0]] + SplitAcronyms(s[1..])
      else s[..n] + SplitAcronyms(s[n..])
  }

  /** Without capitals there is no acronym to split. */
  lemma {:induction false} SplitAcronymsNoUpper(s: string)
    requires NoUpper(s)
    ensures SplitAcronyms(s) == s
    decreases |s|
  {
    if s != [] {
      assert UpperRun(s) == 0;
      SplitAcronymsNoUpper(s[1..]);
      assert s == [s[0]] + s[1..];
    }
  }

  /** A run of capitals followed by anything that is not a capital is
      exactly as long as the run. */
  lemma {:induction false} UpperRunOfRun(a: string, b: string)
    requires forall i | 0 <= i < |a| :: IsUpper(a[i])
    requires b != [] && !IsUpper(b[0])
    ensures UpperRun(a + b) == |a|
    decreases |a|
  {
    if a == [] {
      assert (a + b)[0] == b[0];
    } else {
      assert (a + b)[0] == a[0];
      assert (a + b)[1..] == a[1..] + b;
      UpperRunOfRun(a[1..], b);
    }
  }

  /** An acronym before a capitalised word: a run of two or more capitals
      followed by a lower-case letter gets an underscore before its last
      capital, and the scan resumes after that letter. */
  lemma SplitAcronymsAtRun(a: string, b: string)
    requires |a| >= 2 && forall i | 0 <= i < |a| :: IsUpper(a[i])
    requires b != [] && IsLower(b[0])
    ensures SplitAcronyms(a + b) == a[..|a| - 1] + "_" + a[|a| - 1..] + [b[0]] + SplitAcronyms(b[1..])
  {
    var s, n := a + b, |a|;
    UpperRunOfRun(a, b);
    assert s[n] == b[0];
    AcronymSplitUnfold(s, n);
    AcronymRunAlgebra(a, b);
  }

  lemma AcronymRunAlgebra(a: string, b: string)
    requires |a| >= 2 && b != []
    ensures (a + b)[..|a| - 1] == a[..|a| - 1]
    ensures (a + b)[|a| - 1..|a| + 1] == a[|a| - 1..] + [b[0]]
    ensures (a + b)[|a| + 1..] == b[1..]
  {
  }

  /** One acronym and one capitalised word: the underscore goes between the
      acronym and the word's capital, and nothing else changes. */
  lemma SplitAcronymsOneAcronym(a: string, b: string)
    requires |a| >= 2 && forall i | 0 <= i < |a| :: IsUpper(a[i])
    requires b != [] && IsLower(b[0]) && NoUpper(b)
    ensures SplitAcronyms(a + b) == a[..|a| - 1] + "_" + a[|a| - 1..] + b
  {
    SplitAcronymsAtRun(a, b);
    assert NoUpper(b[1..]) by {
      forall i | 0 <= i < |b[1..]| ensures !IsUpper(b[1..][i]) {
        assert b[1..][i] == b[i + 1];
      }
    }
    SplitAcronymsNoUpper(b[1..]);
    OneAcronymAlgebra(a[..|a| - 1] + "_" + a[|a| - 1..], b);
  }

  lemma OneAcronymAlgebra(p: string, b: string)
    requires b != []
    ensures p + [b[0]] + b[1..] == p + b
  {
    assert [b[0]] + b[1..] == b;
  }

  /** `HTMLParser` splits into `HTML_Parser`. */
  lemma SplitAcronymsExample(s: string)
    requires s == "HTMLParser"
    ensures SplitAcronyms(s) == "HTML_Parser"
  {
    var a, b := "HTMLP", "arser";
    AcronymExampleParts(s, a, b);
    SplitAcronymsOneAcronym(a, b);
    AcronymExampleJoin(a, b);
  }

  lemma AcronymExampleParts(s: string, a: string, b: string)
    requires s == "HTMLParser" && a == "HTMLP" && b == "arser"
    ensures s == a + b
    ensures |a| >= 2 && forall i | 0 <= i < |a| :: IsUpper(a[i])
    ensures b != [] && IsLower(b[0]) && NoUpper(b)
  {
  }

  lemma AcronymExampleJoin(a: string, b: string)
    requires a == "HTMLP" && b == "arser"
    ensures a[..|a| - 1] + "_" + a[|a| - 1..] + b == "HTML_Parser"
  {
    assert a[..|a| - 1] == "HTML" && a[|a| - 1..] == "P";
  }

  /** The acronym split only inserts underscores next to letters, so it
      creates no double colon. */
  lemma {:induction false} SplitAcronymsNoDoubleColon(s: string)
    requires NoDoubleColon(s)
    ensures NoDoubleColon(SplitAcronyms(s))
    decreases |s|
  {
    if s != [] {
      var n := UpperRun(s);
      if n >= 2 && n < |s| && IsLower(s[n]) {
        NoDoubleColonSuffix(s, n + 1);
        SplitAcronymsNoDoubleColon(s[n + 1..]);
        AcronymSplitKeepsColons(s, n);
      } else {
        var k := if n == 0 then 1 else n;
        NoDoubleColonSuffix(s, k);
        SplitAcronymsNoDoubleColon(s[k..]);
        AcronymCopyKeepsColons(s, k);
      }
    }
  }

  lemma AcronymSplitKeepsColons(s: string, n: nat)
    requires 2 <= n < |s| && n == UpperRun(s) && IsLower(s[n])
    requires NoDoubleColon(SplitAcronyms(s[n + 1..]))
    ensures NoDoubleColon(SplitAcronyms(s))
  {
    var piece := s[..n - 1] + "_" + s[n - 1..n + 1];
    AcronymPieceNoColon(s, n);
    NoColonNoDoubleColon(piece);
    AcronymSplitUnfold(s, n);
    NoDoubleColonAppend(piece, SplitAcronyms(s[n + 1..]));
  }

  /** The split-off acronym piece is letters and one underscore. */
  lemma AcronymPieceNoColon(s: string, n: nat)
    requires 2 <= n < |s| && IsLower(s[n])
    requires forall i | 0 <= i < n :: IsUpper(s[i])
    ensures NoColon(s[..n - 1] + "_" + s[n - 1..n + 1])
  {
    var piece := s[..n - 1] + "_" + s[n - 1..n + 1];
    forall i | 0 <= i < |piece| ensures piece[i] != ':' {
      if i < n - 1 {
        assert piece[i] == s[i];
      } else if i > n - 1 {
        assert piece[i] == s[i - 1];
      }
    }
  }

  lemma AcronymCopyKeepsColons(s: string, k: nat)
    requires 1 <= k <= |s| && NoDoubleColon(s)
    requires var n := UpperRun(s); !(n >= 2 && n < |s| && IsLower(s[n])) && k == (if n == 0 then 1 else n)
    requires NoDoubleColon(SplitAcronyms(s[k..]))
    ensures NoDoubleColon(SplitAcronyms(s))
  {
    AcronymCopyUnfold(s, k);
    var rest := SplitAcronyms(s[k..]);
    if k == 1 {
      assert rest != [] ==> rest[0] == s[1];
      NoDoubleColonAppend(s[..1], rest);
    } else {
      assert NoColon(s[..k]);
      NoColonNoDoubleColon(s[..k]);
      NoDoubleColonAppend(s[..k], rest);
    }
  }

  /** `gsub(/([a-z\d])([A-Z])/, '\1_\2')`: an underscore between a lower-case
      letter or digit and the capital after it; matches do not overlap. */
  function CamelSplit(s: string): (r: string)
    ensures s != [] ==> r != [] && r[0] == s[0]
    ensures NoUpper(s) ==> r == s
    ensures NoDoubleColon(s) ==> NoDoubleColon(r)
    decreases |s|
  {
    if |s| < 2 then s
    else if IsLowerOrDigit(s[0]) && IsUpper(s[1]) then
      var rest := CamelSplit(s[2..]);
      assert NoColon([s[0], '_', s[1]]);
      NoColonNoDoubleColon([s[0], '_', s[1]]);
      NoDoubleColonSuffix(s, 2);
      NoDoubleColonAppend([s[0], '_', s[1]], rest);
      [s[0], '_', s[1]] + rest
    else
      var rest := CamelSplit(s[1..]);
      NoDoubleColonSuffix(s, 1);
      NoDoubleColonAppend([s[0]], rest);
      assert s == [s[0]] + s[1..];
      [s[0]] + rest
  }

  /** `tr('-', '_')`. */
  function DashToUnderscore(s: string): (r: string)
    ensures |r| == |s|
    ensures forall i | 0 <= i < |s| :: r[i] == (if s[i] == '-' then '_' else s[i])
  {
    seq(|s|, i requires 0 <= i < |s| => if s[i] == '-' then '_' else s[i])
  }

  /** `Column#underscored_name`: `::` to `/`, the two camel-case splits,
      `-` to `_`, then lower case. The alias has no capital and no dash. */
  function UnderscoredName(name: string): (r: string)
    ensures NoUpper(r)
    ensures forall i | 0 <= i < |r| :: r[i] != '-'
    ensures NoDoubleColon(r)
  {
    SplitAcronymsNoDoubleColon(ColonsToSlash(name));
    var split := CamelSplit(SplitAcronyms(ColonsToSlash(name)));
    FoldKeepsColons(split);
    Downcase(DashToUnderscore(split))
  }

  /** The final character map neither makes nor removes colons. */
  lemma FoldKeepsColons(s: string)
    requires NoDoubleColon(s)
    ensures NoDoubleColon(Downcase(DashToUnderscore(s)))
  {
    var r := Downcase(DashToUnderscore(s));
    forall i | 0 <= i < |r| ensures r[i] == ':' <==> s[i] == ':' {
      assert r[i] == DowncaseChar(DashToUnderscore(s)[i]);
    }
  }

  /** The alias of an alias is itself: an underscored name is a fixed point
      of every step. */
  lemma UnderscoredNameIdempotent(name: string)
    ensures UnderscoredName(UnderscoredName(name)) == UnderscoredName(name)
  {
    var u := UnderscoredName(name);
    assert ColonsToSlash(u) == u;
    SplitAcronymsNoUpper(u);
    assert CamelSplit(u) == u;
    assert DashToUnderscore(u) == u;
    assert Downcase(u) == u;
  }

  /** `s` without its underscores. */
  function Unseparated(s: string): (r: string)
    ensures forall i | 0 <= i < |r| :: r[i] != '_'
  {
    if s == [] then [] else (if s[0] == '_' then [] else [s[0]]) + Unseparated(s[1..])
  }

  lemma {:induction false} UnseparatedAppend(a: string, b: string)
    ensures Unseparated(a + b) == Unseparated(a) + Unseparated(b)
    decreases |a|
  {
    if a == [] {
      assert a + b == b;
    } else {
      UnseparatedAppend(a[1..], b);
      assert (a + b)[0] == a[0];
      assert (a + b)[1..] == a[1..] + b;
    }
  }

  lemma UnderscoreBetween(a: string, b: string)
    ensures Unseparated(a + "_" + b) == Unseparated(a + b)
  {
    UnseparatedAppend(a + "_", b);
    UnseparatedAppend(a, "_");
    assert Unseparated("_") == [];
    UnseparatedAppend(a, b);
  }

  lemma {:induction false} SplitAcronymsInsertsOnlyUnderscores(s: string)
    ensures Unseparated(SplitAcronyms(s)) == Unseparated(s)
    decreases |s|
  {
    if s != [] {
      var n := UpperRun(s);
      if n >= 2 && n < |s| && IsLower(s[n]) {
        SplitAcronymsInsertsOnlyUnderscores(s[n + 1..]);
        AcronymSplitStep(s, n);
      } else {
        var k := if n == 0 then 1 else n;
        SplitAcronymsInsertsOnlyUnderscores(s[k..]);
        AcronymCopyStep(s, k);
      }
    }
  }

  lemma AcronymSplitStep(s: string, n: nat)
    requires 2 <= n < |s| && n == UpperRun(s) && IsLower(s[n])
    requires Unseparated(SplitAcronyms(s[n + 1..])) == Unseparated(s[n + 1..])
    ensures Unseparated(SplitAcronyms(s)) == Unseparated(s)
  {
    AcronymSplitUnfold(s, n);
    SplitPieceAlgebra(s, n, SplitAcronyms(s[n + 1..]));
  }

  lemma AcronymSplitUnfold(s: string, n: nat)
    requires 2 <= n < |s| && n == UpperRun(s) && IsLower(s[n])
    ensures SplitAcronyms(s) == s[..n - 1] + "_" + s[n - 1..n + 1] + SplitAcronyms(s[n + 1..])
  {
  }

  lemma SplitPieceAlgebra(s: string, n: nat, rest: string)
    requires 1 <= n < |s|
    requires Unseparated(rest) == Unseparated(s[n + 1..])
    ensures Unseparated(s[..n - 1] + "_" + s[n - 1..n + 1] + rest) == Unseparated(s)
  {
    var piece := s[..n - 1] + "_" + s[n - 1..n + 1];
    UnseparatedAppend(piece, rest);
    UnderscoreBetween(s[..n - 1], s[n - 1..n + 1]);
    assert s[..n - 1] + s[n - 1..n + 1] == s[..n + 1];
    UnseparatedAppend(s[..n + 1], s[n + 1..]);
    assert s[..n + 1] + s[n + 1..] == s;
  }

  lemma AcronymCopyStep(s: string, k: nat)
    requires 1 <= k <= |s|
    requires var n := UpperRun(s); !(n >= 2 && n < |s| && IsLower(s[n])) && k == (if n == 0 then 1 else n)
    requires Unseparated(SplitAcronyms(s[k..])) == Unseparated(s[k..])
    ensures Unseparated(SplitAcronyms(s)) == Unseparated(s)
  {
    AcronymCopyUnfold(s, k);
    CopyPieceAlgebra(s, k, SplitAcronyms(s[k..]));
  }

  lemma AcronymCopyUnfold(s: string, k: nat)
    requires 1 <= k <= |s|
    requires var n := UpperRun(s); !(n >= 2 && n < |s| && IsLower(s[n])) && k == (if n == 0 then 1 else n)
    ensures SplitAcronyms(s) == s[..k] + SplitAcronyms(s[k..])
  {
    if k == 1 {
      assert s[..1] == [s[0]];
    }
  }

  lemma CopyPieceAlgebra(s: string, k: nat, rest: string)
    requires 1 <= k <= |s|
    requires Unseparated(rest) == Unseparated(s[k..])
    ensures Unseparated(s[..k] + rest) == Unseparated(s)
  {
    UnseparatedAppend(s[..k], rest);
    UnseparatedAppend(s[..k], s[k..]);
    assert s[..k] + s[k..] == s;
  }

  lemma {:induction false} CamelSplitInsertsOnlyUnderscores(s: string)
    ensures Unseparated(CamelSplit(s)) == Unseparated(s)
    decreases |s|
  {
    if |s| >= 2 {
      if IsLowerOrDigit(s[0]) && IsUpper(s[1]) {
        CamelSplitInsertsOnlyUnderscores(s[2..]);
        CamelSplitUnfoldPair(s);
        CamelPairAlgebra(s, CamelSplit(s[2..]));
      } else {
        CamelSplitInsertsOnlyUnderscores(s[1..]);
        CamelSplitUnfoldOne(s);
        CopyPieceAlgebra(s, 1, CamelSplit(s[1..]));
      }
    }
  }

  lemma CamelSplitUnfoldPair(s: string)
    requires |s| >= 2 && IsLowerOrDigit(s[0]) && IsUpper(s[1])
    ensures CamelSplit(s) == [s[0], '_', s[1]] + CamelSplit(s[2..])
  {
  }

  lemma CamelSplitUnfoldOne(s: string)
    requires |s| >= 2 && !(IsLowerOrDigit(s[0]) && IsUpper(s[1]))
    ensures CamelSplit(s) == s[..1] + CamelSplit(s[1..])
  {
    assert s[..1] == [s[0]];
  }

  lemma CamelPairAlgebra(s: string, rest: string)
    requires |s| >= 2
    requires Unseparated(rest) == Unseparated(s[2..])
    ensures Unseparated([s[0], '_', s[1]] + rest) == Unseparated(s)
  {
    UnderscoreBetween([s[0]], [s[1]] + rest);
    assert [s[0]] + "_" + ([s[1]] + rest) == [s[0], '_', s[1]] + rest;
    assert [s[0]] + ([s[1]] + rest) == s[..2] + rest;
    CopyPieceAlgebra(s, 2, rest);
  }

  /** The final character map of the alias: `-` to `_`, then lower case. */
  function FoldChar(c: char): char {
    DowncaseChar(if c == '-' then '_' else c)
  }

  /** Dropping underscores before or after the final character map gives
      the same text, since only `-` and `_` map to `_`. */
  lemma {:induction false} FoldForgetsUnderscores(s: string)
    ensures Unseparated(Downcase(DashToUnderscore(s))) == Unseparated(Downcase(DashToUnderscore(Unseparated(s))))
    decreases |s|
  {
    if s != [] {
      FoldForgetsUnderscores(s[1..]);
      var f := Downcase(DashToUnderscore(s));
      assert f == [FoldChar(s[0])] + Downcase(DashToUnderscore(s[1..]));
      var u := Unseparated(s);
      if s[0] == '_' {
        assert u == Unseparated(s[1..]);
      } else {
        assert u == [s[0]] + Unseparated(s[1..]);
        assert Downcase(DashToUnderscore(u)) == [FoldChar(s[0])] + Downcase(DashToUnderscore(Unseparated(s[1..])));
      }
    }
  }

  /** The two camel-case splits only insert underscores: apart from
      underscores, the alias is the name with `::` turned into `/`, `-` into
      `_`, and capitals into lower case. */
  lemma UnderscoredNameInsertsOnlyUnderscores(name: string)
    ensures Unseparated(UnderscoredName(name)) == Unseparated(Downcase(DashToUnderscore(ColonsToSlash(name))))
  {
    var c := ColonsToSlash(name);
    var a := SplitAcronyms(c);
    var z := CamelSplit(a);
    SplitAcronymsInsertsOnlyUnderscores(c);
    CamelSplitInsertsOnlyUnderscores(a);
    FoldForgetsUnderscores(z);
    FoldForgetsUnderscores(c);
  }

  /** No capital is followed by another: there is no acronym. */
  predicate NoAcronym(s: string) {
    forall i | 0 <= i < |s| - 1 :: !(IsUpper(s[i]) && IsUpper(s[i + 1]))
  }

  /** No lower-case letter or digit is followed by a capital: there is no
      camel-case hump. */
  predicate NoHump(s: string) {
    forall i | 0 <= i < |s| - 1 :: !(IsLowerOrDigit(s[i]) && IsUpper(s[i + 1]))
  }

  /** Without an acronym the acronym split changes nothing. */
  lemma {:induction false} SplitAcronymsNoAcronym(s: string)
    requires NoAcronym(s)
    ensures SplitAcronyms(s) == s
    decreases |s|
  {
    if s != [] {
      assert |s| >= 2 ==> !(IsUpper(s[0]) && IsUpper(s[1]));
      assert UpperRun(s) <= 1;
      assert NoAcronym(s[1..]) by {
        forall i | 0 <= i < |s[1..]| - 1 ensures !(IsUpper(s[1..][i]) && IsUpper(s[1..][i + 1])) {
          assert s[1..][i] == s[i + 1] && s[1..][i + 1] == s[i + 2];
        }
      }
      SplitAcronymsNoAcronym(s[1..]);
      assert s == s[..1] + s[1..];
    }
  }

  /** Without a hump the camel-case split changes nothing. */
  lemma {:induction false} CamelSplitNoHump(s: string)
    requires NoHump(s)
    ensures CamelSplit(s) == s
    decreases |s|
  {
    if |s| >= 2 {
      assert !(IsLowerOrDigit(s[0]) && IsUpper(s[1]));
      NoHumpSuffix(s);
      CamelSplitNoHump(s[1..]);
      assert s == [s[0]] + s[1..];
    }
  }

  lemma NoHumpSuffix(s: string)
    requires s != [] && NoHump(s)
    ensures NoHump(s[1..])
  {
    forall i | 0 <= i < |s[1..]| - 1 ensures !(IsLowerOrDigit(s[1..][i]) && IsUpper(s[1..][i + 1])) {
      assert s[1..][i] == s[i + 1] && s[1..][i + 1] == s[i + 2];
    }
  }

  /** Two hump-free words joined at a hump, as in `Column` + `Name`, get
      exactly one underscore, at the join. */
  lemma {:induction false} CamelSplitOneHump(a: string, b: string)
    requires a != [] && b != [] && IsLowerOrDigit(a[|a| - 1]) && IsUpper(b[0])
    requires NoHump(a) && NoHump(b)
    ensures CamelSplit(a + b) == a + "_" + b
    decreases |a|
  {
    var s := a + b;
    if |a| == 1 {
      assert s[0] == a[0] && s[1] == b[0];
      assert s[2..] == b[1..];
      CamelSplitUnfoldPair(s);
      NoHumpSuffix(b);
      CamelSplitNoHump(b[1..]);
      HumpAlgebra(a, b);
    } else {
      assert s[0] == a[0] && s[1] == a[1];
      assert !(IsLowerOrDigit(a[0]) && IsUpper(a[1]));
      assert s[1..] == a[1..] + b;
      CamelSplitUnfoldOne(s);
      NoHumpSuffix(a);
      CamelSplitOneHump(a[1..], b);
      HumpStepAlgebra(a, b);
    }
  }

  lemma HumpAlgebra(a: string, b: string)
    requires |a| == 1 && b != []
    ensures a + "_" + b == [(a + b)[0], '_', (a + b)[1]] + b[1..]
  {
  }

  lemma HumpStepAlgebra(a: string, b: string)
    requires |a| >= 2
    ensures a + "_" + b == (a + b)[..1] + (a[1..] + "_" + b)
  {
  }

  /** Every character of `s` is a letter or a digit. */
  predicate Alphanumeric(s: string) {
    forall i | 0 <= i < |s| :: IsUpper(s[i]) || IsLowerOrDigit(s[i])
  }

  /** A name of two hump-free alphanumeric words joined at a hump, with no
      acronym, is aliased as the two words in lower case joined by `_`. */
  lemma UnderscoredNameOfTwoWords(a: string, b: string)
    requires a != [] && b != [] && IsLowerOrDigit(a[|a| - 1]) && IsUpper(b[0])
    requires NoHump(a) && NoHump(b) && NoAcronym(a + b)
    requires Alphanumeric(a) && Alphanumeric(b)
    ensures UnderscoredName(a + b) == Downcase(a) + "_" + Downcase(b)
  {
    var s := a + b;
    AlphanumericNoColon(a, b);
    SplitAcronymsNoAcronym(s);
    CamelSplitOneHump(a, b);
    AlphanumericNoDash(a, b);
    UnderscoredNameVia(s, a + "_" + b);
    DowncaseJoin(a, b);
  }

  lemma AlphanumericNoColon(a: string, b: string)
    requires Alphanumeric(a) && Alphanumeric(b)
    ensures ColonsToSlash(a + b) == a + b
  {
    var s := a + b;
    forall i | 0 <= i < |s| ensures s[i] != ':' {
      if i < |a| {
        assert s[i] == a[i];
      } else {
        assert s[i] == b[i - |a|];
      }
    }
    assert NoDoubleColon(s);
  }

  lemma AlphanumericNoDash(a: string, b: string)
    requires Alphanumeric(a) && Alphanumeric(b)
    ensures DashToUnderscore(a + "_" + b) == a + "_" + b
  {
    var split := a + "_" + b;
    forall i | 0 <= i < |split| ensures split[i] != '-' {
      if i < |a| {
        assert split[i] == a[i];
      } else if i > |a| {
        assert split[i] == b[i - |a| - 1];
      }
    }
    DashToUnderscoreNoDash(split);
  }

  lemma DashToUnderscoreNoDash(s: string)
    requires forall i | 0 <= i < |s| :: s[i] != '-'
    ensures DashToUnderscore(s) == s
  {
  }

  /** The alias of `HTMLParser` is `html_parser`: the acronym split, not
      the hump split, puts the underscore in. */
  lemma UnderscoredNameAcronymExample(s: string, t: string)
    requires s == "HTMLParser" && t == "HTML_Parser"
    ensures UnderscoredName(s) == "html_parser"
  {
    AcronymExampleSteps(s, t);
    UnderscoredNameThrough(s, t);
    AcronymExampleDowncase(t);
  }

  lemma AcronymExampleSteps(s: string, t: string)
    requires s == "HTMLParser" && t == "HTML_Parser"
    ensures ColonsToSlash(s) == s && SplitAcronyms(s) == t
    ensures CamelSplit(t) == t && DashToUnderscore(t) == t
  {
    AcronymExampleColons(s);
    SplitAcronymsExample(s);
    AcronymExampleLater(t);
  }

  lemma AcronymExampleColons(s: string)
    requires s == "HTMLParser"
    ensures ColonsToSlash(s) == s
  {
    assert NoColon(s);
    NoColonNoDoubleColon(s);
  }

  lemma AcronymExampleLater(t: string)
    requires t == "HTML_Parser"
    ensures CamelSplit(t) == t && DashToUnderscore(t) == t
  {
    AcronymExampleNoHump(t);
    CamelSplitNoHump(t);
    AcronymExampleNoDash(t);
    DashToUnderscoreNoDash(t);
  }

  lemma AcronymExampleNoHump(t: string)
    requires t == "HTML_Parser"
    ensures NoHump(t)
  {
  }

  lemma AcronymExampleNoDash(t: string)
    requires t == "HTML_Parser"
    ensures forall i | 0 <= i < |t| :: t[i] != '-'
  {
  }

  lemma AcronymExampleDowncase(t: string)
    requires t == "HTML_Parser"
    ensures Downcase(t) == "html_parser"
  {
  }

  /** The alias of a name whose acronym split is `t`, when the later steps
      leave `t` alone. */
  lemma UnderscoredNameThrough(name: string, t: string)
    requires ColonsToSlash(name) == name && SplitAcronyms(name) == t
    requires CamelSplit(t) == t && DashToUnderscore(t) == t
    ensures UnderscoredName(name) == Downcase(t)
  {
  }

  /** The alias of a name that the first three steps turn into `split`. */
  lemma UnderscoredNameVia(name: string, split: string)
    requires ColonsToSlash(name) == name && SplitAcronyms(name) == name
    requires CamelSplit(name) == split && DashToUnderscore(split) == split
    ensures UnderscoredName(name) == Downcase(split)
  {
  }

  lemma DowncaseJoin(a: string, b: string)
    ensures Downcase(a + "_" + b) == Downcase(a) + "_" + Downcase(b)
  {
    var l := Downcase(a + "_" + b);
    var r := Downcase(a) + "_" + Downcase(b);
    assert |l| == |r|;
    forall i | 0 <= i < |l| ensures l[i] == r[i] {
      if i < |a| {
        assert (a + "_" + b)[i] == a[i];
      } else if i == |a| {
        assert (a + "_" + b)[i] == '_';
      } else {
        assert (a + "_" + b)[i] == b[i - |a| - 1];
      }
    }
  }

  /** A constructed column keeps a name that is already clean. */
  lemma NewKeepsCleanName(raw: string, typeCode: int, length: int)
    requires raw != [] && AllPrintable(raw) && Trimmed(raw) && length >= 0
    ensures New(raw, typeCode, length) == Ok(Column(raw, typeCode, length))
  {
  }

  // ---------------------------------------------------------------------
  // The values the column specification expects
  // ---------------------------------------------------------------------

  /** `Column.new "ColumnName", 4, 1` stores its three fields, and length
      0 is accepted too. */
  lemma NewExample(name: string)
    requires name == "ColumnName"
    ensures New(name, 4, 1) == Ok(Column(name, 4, 1))
    ensures New(name, 4, 0) == Ok(Column(name, 4, 0))
  {
    assert AllPrintable(name) && Trimmed(name);
    NewKeepsCleanName(name, 4, 1);
    NewKeepsCleanName(name, 4, 0);
  }

  /** A negative length is refused before the name is looked at. */
  lemma LengthErrorExample()
    ensures New("ColumnName", 4, -1) == Err(LengthError)
    ensures New("", 4, -1) == Err(LengthError)
  {
  }

  /** An empty name is refused. */
  lemma NameErrorExample()
    ensures New("", 4, 1) == Err(NameError)
  {
    assert Strip("") == "";
  }

  /** Non-ASCII characters are dropped from `"thiséeë"`. */
  lemma AsciiNameExample(raw: string)
    requires raw == "thiséeë"
    ensures Clean(raw) == "thise"
  {
    CleanOfTrimmed(raw);
    KeepPrintableExample(raw);
  }

  lemma CleanOfTrimmed(raw: string)
    requires raw == "thiséeë"
    ensures Clean(raw) == KeepPrintable(raw)
  {
    assert Trimmed(raw);
    StripOfPadded(raw, raw, 0);
    assert BeforeNul(raw) == raw;
  }

  lemma KeepPrintableExample(raw: string)
    requires raw == "thiséeë"
    ensures KeepPrintable(raw) == "thise"
  {
    assert raw == "this" + "é" + "e" + "ë";
    KeepPrintableAppend("this" + "é" + "e", "ë");
    KeepPrintableAppend("this" + "é", "e");
    KeepPrintableAppend("this", "é");
  }

  /** `to_hash` of `Column.new "ColumnName", 4, 1`. */
  lemma ToHashExample()
    ensures ToHash(Column("ColumnName", 4, 1)) == map["name" := StringField("ColumnName"), "type" := IntegerField(4), "length" := IntegerField(1)]
  {
  }

  /** The alias of `ColumnName`. */
  lemma UnderscoredNameExample(a: string, b: string)
    requires a == "Column" && b == "Name"
    ensures UnderscoredName(a + b) == "column_name"
  {
    TwoWordsExample(a, b);
    UnderscoredNameOfTwoWords(a, b);
    DowncaseExample(a, b);
  }

  lemma TwoWordsExample(a: string, b: string)
    requires a == "Column" && b == "Name"
    ensures a != [] && b != [] && IsLowerOrDigit(a[|a| - 1]) && IsUpper(b[0])
    ensures NoHump(a) && NoHump(b) && NoAcronym(a + b)
    ensures Alphanumeric(a) && Alphanumeric(b)
  {
    assert a + b == "ColumnName";
  }

  lemma DowncaseExample(a: string, b: string)
    requires a == "Column" && b == "Name"
    ensures Downcase(a) + "_" + Downcase(b) == "column_name"
  {
    assert Downcase(a) == "column";
    assert Downcase(b) == "name";
  }

  /** An integer column's flag, and three of its casts: an empty value, a
      zero-length column, and the bytes of 3. */
  lemma IntegerColumnExamples()
    ensures Flag(Column("ColumnName", 11, 3), 0) == "i"
    ensures TypeCast(Column("ColumnName", 11, 5), Some([])) == Ok(Null)
    ensures TypeCast(Column("ColumnName", 11, 0), Some([])) == Ok(Null)
    ensures TypeCast(Column("ColumnName", 11, 3), Some([3, 0, 0, 0])) == Ok(Int(3))
  {
    assert U32At([3, 0, 0, 0], 0) == 3;
  }
}
