/** The parts of Ruby's String behaviour the decoder relies on, over `string`.
    Bytes read from a table become characters with the same code, as in a
    Ruby binary (ASCII-8BIT) string, which holds one character per byte. */
module RubyText {
  import opened Bytes

  /** The characters `String#strip` removes: NUL, \t \n \v \f \r and space. */
  predicate IsStripSpace(c: char) {
    c == '\0' || '\t' <= c <= '\r' || c == ' '
  }

  predicate Blank(s: string) {
    forall i | 0 <= i < |s| :: IsStripSpace(s[i])
  }

  /** Neither end of `s` is a strip-space character. */
  predicate Trimmed(s: string) {
    s == [] || (!IsStripSpace(s[0]) && !IsStripSpace(s[|s| - 1]))
  }

  /** `s` is `core` with only strip-space characters before it (the first
      `i`) and after it. */
  predicate PaddedAt(s: string, core: string, i: nat) {
    i + |core| <= |s| && s[i..i + |core|] == core && Blank(s[..i]) && Blank(s[i + |core|..])
  }

  /** How many strip-space characters `s` starts with (what `lstrip` drops). */
  function LeadingSpace(s: string): (n: nat)
    ensures n <= |s| && Blank(s[..n])
    ensures n < |s| ==> !IsStripSpace(s[n])
  {
    if s != [] && IsStripSpace(s[0]) then
      var n := 1 + LeadingSpace(s[1..]);
      assert forall i | 1 <= i < n :: s[..n][i] == s[1..][..n - 1][i - 1];
      n
    else 0
  }

  /** Where the trailing run of strip-space characters of `s` begins (what
      `rstrip` drops). */
  function TrailingSpace(s: string): (m: nat)
    ensures m <= |s| && Blank(s[m..])
    ensures m > 0 ==> !IsStripSpace(s[m - 1])
  {
    if s != [] && IsStripSpace(s[|s| - 1]) then
      var m := TrailingSpace(s[..|s| - 1]);
      assert s[m..] == s[..|s| - 1][m..] + [s[|s| - 1]];
      m
    else |s|
  }

  /** `String#strip`: the result is a trimmed infix of `s` with only
      strip-space characters around it, and it is empty exactly when `s` is
      blank. */
  function Strip(s: string): (r: string)
    ensures PaddedAt(s, r, LeadingSpace(s))
    ensures Trimmed(r)
    ensures r == [] <==> Blank(s)
  {
    var a := LeadingSpace(s);
    var b := TrailingSpace(s);
    if a < b then
      assert s[a..b][0] == s[a];
      s[a..b]
    else
      BlankWhenSpacesMeet(s, a, b);
      []
  }

  lemma BlankWhenSpacesMeet(s: string, a: nat, b: nat)
    requires a <= |s| && b <= |s| && b <= a
    requires Blank(s[..a]) && Blank(s[b..])
    ensures Blank(s) && Blank(s[a..])
  {
    forall k | 0 <= k < |s| ensures IsStripSpace(s[k]) {
      if k < a { assert s[..a][k] == s[k]; } else { assert s[b..][k - b] == s[k]; }
    }
  }

  /** The padding around a trimmed core is unique: `Strip` recovers exactly
      that core. */
  lemma {:induction false} StripOfPadded(s: string, core: string, i: nat)
    requires PaddedAt(s, core, i) && Trimmed(core)
    ensures Strip(s) == core
  {
    var a := LeadingSpace(s);
    var r := Strip(s);
    if core == [] {
      forall k | 0 <= k < |s| ensures IsStripSpace(s[k]) {
        if k < i { assert s[..i][k] == s[k]; } else { assert s[i..][k - i] == s[k]; }
      }
    } else {
      assert s[i] == core[0];
      assert a == i;
      var e := i + |core|;
      assert s[e - 1] == core[|core| - 1];
      assert |r| == |core|;
    }
  }

  /** `Strip` gives a trimmed `core` exactly when `s` is that core padded
      with strip-space characters. */
  lemma StripIsCore(s: string, core: string)
    requires Trimmed(core)
    ensures Strip(s) == core <==> exists i :: PaddedAt(s, core, i)
  {
    if exists i :: PaddedAt(s, core, i) {
      var i :| PaddedAt(s, core, i);
      StripOfPadded(s, core, i);
    }
  }

  /** A character whose code is the byte's value. */
  function ByteChar(b: Byte): (c: char)
    ensures c as int == b
  {
    b as char
  }

  /** A binary string: one character per byte, with the byte's code. */
  function ToChars(b: seq<Byte>): (s: string)
    ensures |s| == |b|
    ensures forall i | 0 <= i < |b| :: s[i] as int == b[i]
  {
    seq(|b|, i requires 0 <= i < |b| => ByteChar(b[i]))
  }

  predicate IsUpper(c: char) { 'A' <= c <= 'Z' }
  predicate IsLower(c: char) { 'a' <= c <= 'z' }
  predicate IsDigit(c: char) { '0' <= c <= '9' }

  function UpcaseChar(c: char): (d: char)
    ensures IsLower(c) ==> IsUpper(d)
    ensures !IsLower(c) ==> d == c
  {
    if IsLower(c) then (c as int - 32) as char else c
  }

  function DowncaseChar(c: char): (d: char)
    ensures IsUpper(c) ==> IsLower(d) && UpcaseChar(d) == c
    ensures !IsUpper(c) ==> d == c
  {
    if IsUpper(c) then (c as int + 32) as char else c
  }

  /** `String#downcase` on ASCII text. */
  function Downcase(s: string): (r: string)
    ensures |r| == |s|
    ensures forall i | 0 <= i < |s| :: r[i] == DowncaseChar(s[i])
  {
    seq(|s|, i requires 0 <= i < |s| => DowncaseChar(s[i]))
  }

  function DigitChar(d: nat): (c: char)
    requires d < 10
    ensures IsDigit(c)
  {
    ('0' as int + d) as char
  }

  /** `Integer#to_s` of a non-negative number: its decimal digits. */
  function NatToDecimal(n: nat): (s: string)
    ensures |s| > 0
    ensures forall i | 0 <= i < |s| :: IsDigit(s[i])
    decreases n
  {
    if n < 10 then [DigitChar(n)] else NatToDecimal(n / 10) + [DigitChar(n % 10)]
  }

  /** `Integer#to_s`: a minus sign before the digits of a negative number. */
  function IntToDecimal(n: int): (s: string)
    ensures |s| > 0
  {
    if n < 0 then "-" + NatToDecimal(-n) else NatToDecimal(n)
  }

  function DigitValue(c: char): (d: nat)
    requires IsDigit(c)
    ensures d < 10
  {
    c as int - '0' as int
  }

  /** The number a string of decimal digits denotes. */
  function DecimalValue(s: string): nat
    requires forall i | 0 <= i < |s| :: IsDigit(s[i])
  {
    if s == [] then 0 else 10 * DecimalValue(s[..|s| - 1]) + DigitValue(s[|s| - 1])
  }

  /** Reading the digits back gives the number: the decimal rendering loses
      nothing. */
  lemma {:induction false} DecimalRoundTrip(n: nat)
    ensures DecimalValue(NatToDecimal(n)) == n
    decreases n
  {
    var s := NatToDecimal(n);
    if n >= 10 {
      DecimalRoundTrip(n / 10);
      assert s[..|s| - 1] == NatToDecimal(n / 10);
    }
  }

  lemma NonNegativeDecimalRoundTrip(n: int)
    ensures n >= 0 ==> (forall i | 0 <= i < |IntToDecimal(n)| :: IsDigit(IntToDecimal(n)[i]))
                       && DecimalValue(IntToDecimal(n)) == n
  {
    if n >= 0 { DecimalRoundTrip(n); }
  }
}
