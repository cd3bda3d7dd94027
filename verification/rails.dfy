/** `ADT::Rails`: the ActiveRecord model class generated for a table, named
    by `camelize` with its default upper-case first letter. */
module RailsModel {
  import opened RubyText
  import opened Columns

  /** Length of the `[a-z\d]*` run `s` starts with. */
  function LowerRun(s: string): (n: nat)
    ensures n <= |s|
    ensures forall i | 0 <= i < n :: IsLowerOrDigit(s[i])
    ensures n < |s| ==> !IsLowerOrDigit(s[n])
  {
    if s != [] && IsLowerOrDigit(s[0]) then 1 + LowerRun(s[1..]) else 0
  }

  /** `String#capitalize` on a `[a-z\d]*` run: its first character upper
      case, the rest as it is. */
  function Capitalize(run: string): (r: string)
    requires forall i | 0 <= i < |run| :: IsLowerOrDigit(run[i])
    ensures |r| == |run|
    ensures forall i | 0 <= i < |r| :: r[i] != '_' && r[i] != '/' && DowncaseChar(r[i]) == run[i]
  {
    if run == [] then []
    else
      CapitalizedChar(run[0]);
      var r := [UpcaseChar(run[0])] + run[1..];
      assert forall i | 1 <= i < |r| :: r[i] == run[i] && IsLowerOrDigit(run[i]);
      r
  }

  /** A capitalised letter or digit is neither `_` nor `/`, and lower-casing
      gives it back. */
  lemma CapitalizedChar(c: char)
    requires IsLowerOrDigit(c)
    ensures UpcaseChar(c) != '_' && UpcaseChar(c) != '/' && DowncaseChar(UpcaseChar(c)) == c
  {
  }

  // `sub(/^[a-z\d]*/, &:capitalize)`: the leading run is capitalised, which
  // only ever changes the first character.
  function CapitalizeFirst(s: string): (r: string)
    ensures s == [] ==> r == []
    ensures s != [] ==> r == [UpcaseChar(s[0])] + s[1..]
    ensures |r| == |s|
    ensures forall i | 0 <= i < |s| :: (r[i] == '_' <==> s[i] == '_') && (r[i] == '/' <==> s[i] == '/')
    ensures Downcase(r) == Downcase(s)
  {
    if s == [] then []
    else
      var n := LowerRun(s);
      var r := Capitalize(s[..n]) + s[n..];
      LeadingRunShape(s, n, r);
      FirstUpcased(s, r);
      r
  }

  /** Capitalising the leading run, empty or not, upcases the first
      character and keeps the rest. */
  lemma LeadingRunShape(s: string, n: nat, r: string)
    requires s != [] && n == LowerRun(s)
    requires r == Capitalize(s[..n]) + s[n..]
    ensures r == [UpcaseChar(s[0])] + s[1..]
  {
    if n == 0 {
      EmptyRunShape(s, r);
    } else {
      RunShape(s, n, r);
    }
  }

  lemma EmptyRunShape(s: string, r: string)
    requires s != [] && !IsLowerOrDigit(s[0])
    requires r == Capitalize(s[..0]) + s[0..]
    ensures r == [UpcaseChar(s[0])] + s[1..]
  {
    assert s[..0] == [];
    assert s == [s[0]] + s[1..];
  }

  lemma RunShape(s: string, n: nat, r: string)
    requires 0 < n <= |s| && forall i | 0 <= i < n :: IsLowerOrDigit(s[i])
    requires r == Capitalize(s[..n]) + s[n..]
    ensures r == [UpcaseChar(s[0])] + s[1..]
  {
    var run := s[..n];
    assert Capitalize(run) == [UpcaseChar(run[0])] + run[1..];
    assert run[1..] + s[n..] == s[1..];
  }

  /** What upcasing only the first character keeps. */
  lemma FirstUpcased(s: string, r: string)
    requires s != [] && r == [UpcaseChar(s[0])] + s[1..]
    ensures |r| == |s|
    ensures forall i | 0 <= i < |s| :: (r[i] == '_' <==> s[i] == '_') && (r[i] == '/' <==> s[i] == '/')
    ensures Downcase(r) == Downcase(s)
  {
    assert forall i | 1 <= i < |s| :: r[i] == s[i];
    assert DowncaseChar(r[0]) == DowncaseChar(s[0]);
  }

  /** `gsub(%r{(?:_|(/))([a-z\d]*)}) { "#{$1}#{$2.capitalize}" }`: each `_`
      or `/`, scanning left to right, takes the run after it; the run is
      capitalised, a `/` is kept and a `_` is dropped. */
  function CapitalizeRuns(s: string): (r: string)
    ensures forall i | 0 <= i < |r| :: r[i] != '_'
    decreases |s|
  {
    if s == [] then []
    else if s[0] == '_' || s[0] == '/' then
      var n := LowerRun(s[1..]);
      (if s[0] == '/' then "/" else "") + Capitalize(s[1..][..n]) + CapitalizeRuns(s[1 + n..])
    else [s[0]] + CapitalizeRuns(s[1..])
  }

  /** `gsub('/', '::')`. */
  function SlashToColons(s: string): (r: string)
    ensures forall i | 0 <= i < |r| :: r[i] != '/'
    ensures (forall i | 0 <= i < |s| :: s[i] != '_') ==> forall i | 0 <= i < |r| :: r[i] != '_'
    decreases |s|
  {
    if s == [] then []
    else (if s[0] == '/' then "::" else [s[0]]) + SlashToColons(s[1..])
  }

  /** `camelize(string)` with `uppercase_first_letter = true`: no underscore
      and no slash survives. */
  function Camelize(s: string): (r: string)
    ensures forall i | 0 <= i < |r| :: r[i] != '_' && r[i] != '/'
  {
    SlashToColons(CapitalizeRuns(CapitalizeFirst(s)))
  }

  /** A name without `_` or `/` only has its first letter capitalised:
      capitals, `-` and every other character pass through. */
  lemma CamelizeWithoutSeparators(s: string)
    requires s != []
    requires forall i | 0 <= i < |s| :: s[i] != '_' && s[i] != '/'
    ensures Camelize(s) == [UpcaseChar(s[0])] + s[1..]
  {
    var f := CapitalizeFirst(s);
    CapitalizeRunsUnchanged(f);
    SlashToColonsUnchanged(f);
  }

  /** Without `_` or `/` there is no run to capitalise. */
  lemma {:induction false} CapitalizeRunsUnchanged(s: string)
    requires forall i | 0 <= i < |s| :: s[i] != '_' && s[i] != '/'
    ensures CapitalizeRuns(s) == s
    decreases |s|
  {
    if s != [] {
      CapitalizeRunsUnchanged(s[1..]);
      assert s == [s[0]] + s[1..];
    }
  }

  /** Without `/` there is nothing to turn into `::`. */
  lemma {:induction false} SlashToColonsUnchanged(s: string)
    requires forall i | 0 <= i < |s| :: s[i] != '/'
    ensures SlashToColons(s) == s
    decreases |s|
  {
    if s != [] {
      SlashToColonsUnchanged(s[1..]);
      assert s == [s[0]] + s[1..];
    }
  }

  /** Apart from case, camelizing only drops the underscores and turns each
      `/` into `::`. */
  lemma CamelizeOnlyDropsUnderscores(s: string)
    ensures Downcase(Camelize(s)) == SlashToColons(Unseparated(Downcase(s)))
  {
    var f := CapitalizeFirst(s);
    var c := CapitalizeRuns(f);
    DowncaseSlashToColons(c);
    CapitalizeRunsFolds(f);
    DowncaseUnseparated(f);
    DowncaseUnseparated(s);
  }

  /** Lower-casing commutes with `/` to `::`. */
  lemma {:induction false} DowncaseSlashToColons(s: string)
    ensures Downcase(SlashToColons(s)) == SlashToColons(Downcase(s))
    decreases |s|
  {
    if s != [] {
      DowncaseSlashToColons(s[1..]);
      var head := if s[0] == '/' then "::" else [s[0]];
      DowncaseAppend(head, SlashToColons(s[1..]));
      DowncaseCons(s);
      SlashToColonsCons(s);
      SlashToColonsCons(Downcase(s));
    }
  }

  lemma SlashToColonsCons(s: string)
    requires s != []
    ensures SlashToColons(s) == (if s[0] == '/' then "::" else [s[0]]) + SlashToColons(s[1..])
  {
  }

  /** Lower-casing commutes with dropping underscores. */
  lemma {:induction false} DowncaseUnseparated(s: string)
    ensures Downcase(Unseparated(s)) == Unseparated(Downcase(s))
    decreases |s|
  {
    if s != [] {
      DowncaseUnseparated(s[1..]);
      var head := if s[0] == '_' then [] else [s[0]];
      DowncaseAppend(head, Unseparated(s[1..]));
      DowncaseCons(s);
      UnseparatedCons(s);
      UnseparatedCons(Downcase(s));
    }
  }

  lemma UnseparatedCons(s: string)
    requires s != []
    ensures Unseparated(s) == (if s[0] == '_' then [] else [s[0]]) + Unseparated(s[1..])
  {
  }

  lemma DowncaseAppend(a: string, b: string)
    ensures Downcase(a + b) == Downcase(a) + Downcase(b)
  {
  }

  lemma DowncaseCons(s: string)
    requires s != []
    ensures Downcase(s) == [DowncaseChar(s[0])] + Downcase(s[1..])
    ensures Downcase(s)[1..] == Downcase(s[1..])
  {
    var d := Downcase(s);
    var t := Downcase(s[1..]);
    forall i | 1 <= i < |d| ensures d[i] == t[i - 1] {
      assert s[1..][i - 1] == s[i];
    }
    assert d[1..] == t;
    assert d == [d[0]] + d[1..];
  }

  /** Apart from case, the run capitalisation only drops underscores. */
  lemma {:induction false} CapitalizeRunsFolds(s: string)
    ensures Downcase(CapitalizeRuns(s)) == Downcase(Unseparated(s))
    decreases |s|
  {
    if s != [] {
      if s[0] == '_' || s[0] == '/' {
        var n := LowerRun(s[1..]);
        var run := s[1..][..n];
        CapitalizeRunsFolds(s[1 + n..]);
        RunStep(s, n);
      } else {
        CapitalizeRunsFolds(s[1..]);
        DowncaseAppend([s[0]], CapitalizeRuns(s[1..]));
        DowncaseAppend([s[0]], Unseparated(s[1..]));
        UnseparatedCons(s);
      }
    }
  }

  /** One `_` or `/` with the run after it. */
  lemma RunStep(s: string, n: nat)
    requires s != [] && (s[0] == '_' || s[0] == '/')
    requires n == LowerRun(s[1..])
    requires Downcase(CapitalizeRuns(s[1 + n..])) == Downcase(Unseparated(s[1 + n..]))
    ensures Downcase(CapitalizeRuns(s)) == Downcase(Unseparated(s))
  {
    var sep := if s[0] == '/' then "/" else "";
    var run := s[1..][..n];
    var rest := s[1 + n..];
    CapitalizeRunsSep(s, n);
    UnseparatedSep(s, n);
    DowncaseAppend3(sep, Capitalize(run), CapitalizeRuns(rest));
    DowncaseAppend3(sep, run, Unseparated(rest));
    DowncaseOfCapitalized(run);
  }

  lemma CapitalizeRunsSep(s: string, n: nat)
    requires s != [] && (s[0] == '_' || s[0] == '/')
    requires n == LowerRun(s[1..])
    ensures CapitalizeRuns(s) == (if s[0] == '/' then "/" else "") + Capitalize(s[1..][..n]) + CapitalizeRuns(s[1 + n..])
  {
  }

  lemma UnseparatedSep(s: string, n: nat)
    requires s != [] && (s[0] == '_' || s[0] == '/')
    requires n == LowerRun(s[1..])
    ensures Unseparated(s) == (if s[0] == '/' then "/" else "") + s[1..][..n] + Unseparated(s[1 + n..])
  {
    var run := s[1..][..n];
    var rest := s[1 + n..];
    assert s == [s[0]] + run + rest;
    UnseparatedAppend([s[0]] + run, rest);
    UnseparatedAppend([s[0]], run);
    UnseparatedOfRun(run);
    UnseparatedCons([s[0]]);
    assert [s[0]][1..] == [];
  }

  lemma DowncaseAppend3(x: string, y: string, z: string)
    ensures Downcase(x + y + z) == Downcase(x) + Downcase(y) + Downcase(z)
  {
    DowncaseAppend(x + y, z);
    DowncaseAppend(x, y);
  }

  lemma UnseparatedOfRun(run: string)
    requires forall i | 0 <= i < |run| :: IsLowerOrDigit(run[i])
    ensures Unseparated(run) == run
    decreases |run|
  {
    if run != [] {
      UnseparatedOfRun(run[1..]);
      UnseparatedCons(run);
      assert run == [run[0]] + run[1..];
    }
  }

  lemma DowncaseOfCapitalized(run: string)
    requires forall i | 0 <= i < |run| :: IsLowerOrDigit(run[i])
    ensures Downcase(Capitalize(run)) == Downcase(run) == run
  {
  }

  /** A separator followed by a run of lower-case letters and digits
      camelizes to the run capitalised, after `::` for a `/` and after
      nothing for a `_`, whatever comes before it. */
  lemma CamelizeAppendRun(a: string, sep: char, b: string)
    requires sep == '_' || sep == '/'
    requires forall i | 0 <= i < |b| :: IsLowerOrDigit(b[i])
    ensures Camelize(a + [sep] + b) == Camelize(a) + (if sep == '/' then "::" else "") + Capitalize(b)
  {
    var tail := [sep] + b;
    var sepText := if sep == '/' then "/" else "";
    AppendAssoc(a, [sep], b);
    CapitalizeFirstAppend(a, tail);
    var f := CapitalizeFirst(a);
    CapitalizeRunsAppend(f, tail);
    CapitalizeRunsOfRun(sep, b);
    SlashToColonsOfRun(CapitalizeRuns(f), sepText, Capitalize(b));
    CamelizeUnfold(a);
    CamelizeUnfold(a + tail);
  }

  lemma CamelizeUnfold(s: string)
    ensures Camelize(s) == SlashToColons(CapitalizeRuns(CapitalizeFirst(s)))
  {
  }

  /** `/` to `::` after a capitalised run. */
  lemma SlashToColonsOfRun(p: string, sepText: string, run: string)
    requires sepText == "/" || sepText == ""
    requires forall i | 0 <= i < |run| :: run[i] != '/'
    ensures SlashToColons(p + (sepText + run)) == SlashToColons(p) + (if sepText == "/" then "::" else "") + run
  {
    SlashToColonsAppend(p, sepText + run);
    SlashToColonsAppend(sepText, run);
    SlashToColonsUnchanged(run);
  }

  /** `ab_cd` camelizes to `AbCd`. */
  lemma CamelizeExample(a: string, b: string)
    requires a == "ab" && b == "cd"
    ensures Camelize(a + "_" + b) == "AbCd"
  {
    CamelizeAppendRun(a, '_', b);
    ExampleParts(a, b);
  }

  lemma ExampleParts(a: string, b: string)
    requires a == "ab" && b == "cd"
    ensures Camelize(a) + "" + Capitalize(b) == "AbCd"
  {
    CamelizeWithoutSeparators(a);
    assert Camelize(a) == "Ab";
    assert Capitalize(b) == "Cd";
  }

  /** The leading run of a name is the leading run of its first part when
      the second part starts with `_` or `/`. */
  lemma CapitalizeFirstAppend(a: string, tail: string)
    requires tail != [] && (tail[0] == '_' || tail[0] == '/')
    ensures CapitalizeFirst(a + tail) == CapitalizeFirst(a) + tail
  {
    if a == [] {
      assert a + tail == tail;
    } else {
      assert (a + tail)[1..] == a[1..] + tail;
    }
  }

  /** Capitalising runs distributes over a join at a character that cannot
      continue a run. */
  lemma {:induction false} CapitalizeRunsAppend(x: string, y: string)
    requires y == [] || !IsLowerOrDigit(y[0])
    ensures CapitalizeRuns(x + y) == CapitalizeRuns(x) + CapitalizeRuns(y)
    decreases |x|
  {
    if x == [] {
      EmptyAppend(x, y);
    } else if x[0] == '_' || x[0] == '/' {
      var n := LowerRun(x[1..]);
      CapitalizeRunsAppend(x[1 + n..], y);
      SepRunAppend(x, y, n);
    } else {
      CapitalizeRunsAppend(x[1..], y);
      PlainAppend(x, y);
    }
  }

  /** The step of `CapitalizeRunsAppend` at a character that is not a
      separator. */
  lemma PlainAppend(x: string, y: string)
    requires x != [] && x[0] != '_' && x[0] != '/'
    requires CapitalizeRuns(x[1..] + y) == CapitalizeRuns(x[1..]) + CapitalizeRuns(y)
    ensures CapitalizeRuns(x + y) == CapitalizeRuns(x) + CapitalizeRuns(y)
  {
    ConsAppend(x, y);
    CapitalizeRunsCons(x + y);
    CapitalizeRunsCons(x);
    AppendAssoc([x[0]], CapitalizeRuns(x[1..]), CapitalizeRuns(y));
  }

  lemma EmptyAppend(x: string, y: string)
    requires x == []
    ensures CapitalizeRuns(x + y) == CapitalizeRuns(x) + CapitalizeRuns(y)
  {
    assert x + y == y;
    assert CapitalizeRuns(x) == [];
    assert [] + CapitalizeRuns(y) == CapitalizeRuns(y);
  }

  lemma ConsAppend(x: string, y: string)
    requires x != []
    ensures (x + y)[0] == x[0] && (x + y)[1..] == x[1..] + y
  {
  }

  lemma AppendAssoc(a: string, b: string, c: string)
    ensures a + (b + c) == (a + b) + c
  {
  }

  /** The separator step of `CapitalizeRunsAppend`. */
  lemma SepRunAppend(x: string, y: string, n: nat)
    requires x != [] && (x[0] == '_' || x[0] == '/')
    requires y == [] || !IsLowerOrDigit(y[0])
    requires n == LowerRun(x[1..])
    requires CapitalizeRuns(x[1 + n..] + y) == CapitalizeRuns(x[1 + n..]) + CapitalizeRuns(y)
    ensures CapitalizeRuns(x + y) == CapitalizeRuns(x) + CapitalizeRuns(y)
  {
    var run := x[1..][..n];
    var rest := x[1 + n..];
    SplitAtRun(x, n);
    CapitalizeRunsAt(x, run, rest);
    RunThenAppend(x[0], run, rest, y);
    CapitalizeRunsAt(x + y, run, rest + y);
    AppendAssoc((if x[0] == '/' then "/" else "") + Capitalize(run), CapitalizeRuns(rest), CapitalizeRuns(y));
  }

  /** A separator, the run after it, and the rest. */
  lemma SplitAtRun(x: string, n: nat)
    requires x != [] && n == LowerRun(x[1..])
    ensures x == [x[0]] + x[1..][..n] + x[1 + n..]
    ensures forall i | 0 <= i < n :: IsLowerOrDigit(x[1..][..n][i])
    ensures x[1 + n..] == [] || !IsLowerOrDigit(x[1 + n..][0])
  {
    assert x[1 + n..] != [] ==> x[1 + n..][0] == x[1..][n];
  }

  lemma RunThenAppend(c: char, run: string, rest: string, y: string)
    requires rest == [] || !IsLowerOrDigit(rest[0])
    requires y == [] || !IsLowerOrDigit(y[0])
    ensures ([c] + run + rest) + y == [c] + run + (rest + y)
    ensures ([c] + run + rest + y)[0] == c
    ensures rest + y == [] || !IsLowerOrDigit((rest + y)[0])
  {
    if rest != [] {
      assert (rest + y)[0] == rest[0];
    } else {
      assert rest + y == y;
    }
  }

  /** A separator, the whole run after it, and what follows the run. */
  lemma CapitalizeRunsAt(s: string, run: string, rest: string)
    requires s != [] && (s[0] == '_' || s[0] == '/') && s == [s[0]] + run + rest
    requires forall i | 0 <= i < |run| :: IsLowerOrDigit(run[i])
    requires rest == [] || !IsLowerOrDigit(rest[0])
    ensures CapitalizeRuns(s) == (if s[0] == '/' then "/" else "") + Capitalize(run) + CapitalizeRuns(rest)
  {
    assert s[1..] == run + rest;
    LowerRunOfRun(run, rest);
    assert s[1..][..|run|] == run;
    assert s[1 + |run|..] == rest;
    CapitalizeRunsSep(s, |run|);
  }

  lemma {:induction false} LowerRunOfRun(run: string, rest: string)
    requires forall i | 0 <= i < |run| :: IsLowerOrDigit(run[i])
    requires rest == [] || !IsLowerOrDigit(rest[0])
    ensures LowerRun(run + rest) == |run|
    decreases |run|
  {
    if run == [] {
      assert run + rest == rest;
    } else {
      assert (run + rest)[0] == run[0];
      assert (run + rest)[1..] == run[1..] + rest;
      LowerRunOfRun(run[1..], rest);
    }
  }

  lemma CapitalizeRunsCons(s: string)
    requires s != [] && s[0] != '_' && s[0] != '/'
    ensures CapitalizeRuns(s) == [s[0]] + CapitalizeRuns(s[1..])
  {
  }

  /** One separator and the whole run after it. */
  lemma CapitalizeRunsOfRun(sep: char, b: string)
    requires sep == '_' || sep == '/'
    requires forall i | 0 <= i < |b| :: IsLowerOrDigit(b[i])
    ensures CapitalizeRuns([sep] + b) == (if sep == '/' then "/" else "") + Capitalize(b)
  {
    var e: string := [];
    AppendEmpty([sep] + b);
    CapitalizeRunsAt([sep] + b, b, e);
    assert CapitalizeRuns(e) == [];
    AppendEmpty((if sep == '/' then "/" else "") + Capitalize(b));
  }

  lemma AppendEmpty(a: string)
    ensures a + [] == a
  {
  }

  /** `/` to `::` distributes over concatenation. */
  lemma {:induction false} SlashToColonsAppend(p: string, q: string)
    ensures SlashToColons(p + q) == SlashToColons(p) + SlashToColons(q)
    decreases |p|
  {
    if p == [] {
      assert p + q == q;
    } else {
      assert (p + q)[0] == p[0];
      assert (p + q)[1..] == p[1..] + q;
      SlashToColonsAppend(p[1..], q);
      SlashToColonsCons(p + q);
      SlashToColonsCons(p);
    }
  }

  /** Text between the class name and the table name, and after the table
      name, of the generated model. */
  const MODEL_MIDDLE: string := " < ApplicationRecord\n        self.table_name = '"
  const MODEL_END: string := "'\n      end"

  /** `text` is `a`, `b`, `m`, `n` and `e` in a row, and each can be read
      back at its place. */
  predicate Framed(text: string, a: string, b: string, m: string, n: string, e: string) {
    |text| == |a| + |b| + |m| + |n| + |e|
    && text[..|a|] == a
    && text[|a|..|a| + |b|] == b
    && text[|a| + |b|..|a| + |b| + |m|] == m
    && text[|text| - |e| - |n|..|text| - |e|] == n
    && text[|text| - |e|..] == e
  }

  /** `Rails#model`: the class named by camelizing the table name, with the
      table name itself, unchanged, as `table_name`. */
  function ModelText(tableName: string): (text: string)
    ensures Framed(text, "class ", Camelize(tableName), MODEL_MIDDLE, tableName, MODEL_END)
  {
    var c := Camelize(tableName);
    ModelPieces("class ", c, MODEL_MIDDLE, tableName, MODEL_END);
    "class " + c + MODEL_MIDDLE + tableName + MODEL_END
  }

  lemma ModelPieces(a: string, b: string, m: string, n: string, e: string)
    ensures Framed(a + b + m + n + e, a, b, m, n, e)
  {
    var t := a + b + m + n + e;
    assert t == (a + b + m) + (n + e);
    assert t[..|a| + |b| + |m|] == a + b + m;
    assert (a + b + m)[..|a|] == a;
    assert (a + b + m)[|a|..|a| + |b|] == b;
  }
}
