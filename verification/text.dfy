/** The handful of Ruby String operations the core relies on: strip, split,
    readlines, to_i, Integer#to_s and character searches. Characters stand
    for the bytes of the source's UTF-8 strings; every character the
    operations inspect is ASCII. */
module Text {

  /** ASCII white space as Ruby's ISSPACE and awk-style `split` see it. */
  predicate IsSpace(c: char) {
    c == ' ' || c == '\t' || c == '\n' || c == '\U{B}' || c == '\U{C}' || c == '\r'
  }

  /** What `String#strip` removes at either end: white space and NUL. */
  predicate IsStrippable(c: char) { c == '\0' || IsSpace(c) }

  predicate IsDigit(c: char) { '0' <= c <= '9' }

  function DigitValue(c: char): (d: nat)
    requires IsDigit(c)
    ensures d < 10
  {
    (c as int) - ('0' as int)
  }

  /** The position of the first occurrence of `c`. */
  function IndexOf(s: string, c: char): (i: nat)
    requires c in s
    ensures i < |s| && s[i] == c && c !in s[..i]
  {
    if s[0] == c then 0 else 1 + IndexOf(s[1..], c)
  }

  function LStrip(s: string): (r: string)
    ensures |r| <= |s| && r == s[|s| - |r|..]
    ensures r == [] || !IsStrippable(r[0])
    ensures forall i :: 0 <= i < |s| - |r| ==> IsStrippable(s[i])
  {
    if s != [] && IsStrippable(s[0]) then LStrip(s[1..]) else s
  }

  function RStrip(s: string): (r: string)
    ensures |r| <= |s| && r == s[..|r|]
    ensures r == [] || !IsStrippable(r[|r| - 1])
    ensures forall i :: |r| <= i < |s| ==> IsStrippable(s[i])
  {
    if s != [] && IsStrippable(s[|s| - 1]) then RStrip(s[..|s| - 1]) else s
  }

  /** `String#strip`: the infix left once white space and NUL are removed
      from both ends. */
  function Strip(s: string): (r: string)
    ensures |r| <= |s|
    ensures r == [] || (!IsStrippable(r[0]) && !IsStrippable(r[|r| - 1]))
  {
    RStrip(LStrip(s))
  }

  /** `s.split(c, -1)`: every field between occurrences of `c`, empty ones
      included. */
  function SplitOn(s: string, c: char): (r: seq<string>)
    ensures |r| >= 1
    ensures forall i :: 0 <= i < |r| ==> c !in r[i]
    decreases |s|
  {
    if c in s then
      var i := IndexOf(s, c);
      [s[..i]] + SplitOn(s[i + 1..], c)
    else [s]
  }

  /** Splitting a concatenation at a separator splits each side. */
  lemma {:induction false} SplitOnAppend(a: string, b: string, c: char)
    requires c !in a
    ensures SplitOn(a + [c] + b, c) == [a] + SplitOn(b, c)
  {
    var s := a + [c] + b;
    assert s[|a|] == c;
    var i := IndexOf(s, c);
    assert s[..|a|] == a;
    assert i == |a|;
    assert s[..i] == a;
    assert s[i + 1..] == b;
  }

  /** Length of the longest prefix without white space. */
  function WordLength(s: string): (n: nat)
    ensures n <= |s|
    ensures n < |s| ==> IsSpace(s[n])
    ensures forall k :: 0 <= k < n ==> !IsSpace(s[k])
  {
    if s == [] || IsSpace(s[0]) then 0 else 1 + WordLength(s[1..])
  }

  /** `String#split` with no argument: the maximal runs of non-white-space
      characters, in order. */
  function Words(s: string): (r: seq<string>)
    ensures forall i :: 0 <= i < |r| ==> r[i] != [] && forall k :: 0 <= k < |r[i]| ==> !IsSpace(r[i][k])
    decreases |s|
  {
    if s == [] then []
    else if IsSpace(s[0]) then Words(s[1..])
    else
      var n := WordLength(s);
      [s[..n]] + Words(s[n..])
  }

  /** `File.readlines`: the lines of a text, each keeping its newline; a
      last line without newline is kept as it is. */
  function Lines(s: string): (r: seq<string>)
    ensures forall i :: 0 <= i < |r| ==> r[i] != [] && '\n' !in r[i][..|r[i]| - 1]
    decreases |s|
  {
    if s == [] then []
    else if '\n' in s then
      var i := IndexOf(s, '\n');
      [s[..i + 1]] + Lines(s[i + 1..])
    else [s]
  }

  /** Lines are a partition of the text: concatenated, they give it back. */
  lemma {:induction false} LinesConcat(s: string)
    ensures Concat(Lines(s)) == s
    decreases |s|
  {
    if s != [] && '\n' in s {
      var i := IndexOf(s, '\n');
      LinesConcat(s[i + 1..]);
      assert s == s[..i + 1] + s[i + 1..];
    }
  }

  function Concat(ss: seq<string>): string {
    if ss == [] then [] else ss[0] + Concat(ss[1..])
  }

  /** The value of a string of decimal digits. */
  function DecimalValue(ds: string): nat
    requires forall k :: 0 <= k < |ds| ==> IsDigit(ds[k])
  {
    if ds == [] then 0 else 10 * DecimalValue(ds[..|ds| - 1]) + DigitValue(ds[|ds| - 1])
  }

  /** Drops one underscore that separates two digits. */
  function SkipSeparator(s: string): (r: string)
    ensures |r| <= |s|
  {
    if |s| >= 2 && s[0] == '_' && IsDigit(s[1]) then s[1..] else s
  }

  /** The digits of the longest prefix of the form d(_?d)*: the numeral
      `to_i` reads, with its separating underscores dropped. */
  function Numeral(s: string): (ds: string)
    ensures forall k :: 0 <= k < |ds| ==> IsDigit(ds[k])
    decreases |s|
  {
    if s != [] && IsDigit(s[0]) then [s[0]] + Numeral(SkipSeparator(s[1..])) else []
  }

  function SkipSpaces(s: string): string {
    if s != [] && IsSpace(s[0]) then SkipSpaces(s[1..]) else s
  }

  /** `String#to_i`: leading white space, an optional sign, an optional
      `0d` prefix and then the longest numeral; 0 when there is none. */
  function ToI(s: string): int {
    var t := SkipSpaces(s);
    var negative := t != [] && t[0] == '-';
    var u := if t != [] && (t[0] == '-' || t[0] == '+') then t[1..] else t;
    var v := if |u| >= 2 && u[0] == '0' && (u[1] == 'd' || u[1] == 'D') then u[2..] else u;
    var n: int := DecimalValue(Numeral(v));
    if negative then -n else n
  }

  /** `Integer#to_s` for a natural number. */
  function NatToString(n: nat): (s: string)
    ensures s != [] && forall k :: 0 <= k < |s| ==> IsDigit(s[k])
  {
    var d := [(48 + n % 10) as char];
    if n < 10 then d else NatToString(n / 10) + d
  }

  /** Reading back a printed number gives the number. */
  lemma {:induction false} NatToStringValue(n: nat)
    ensures DecimalValue(NatToString(n)) == n
  {
    var s := NatToString(n);
    if n >= 10 {
      NatToStringValue(n / 10);
      assert s[..|s| - 1] == NatToString(n / 10);
    }
  }

  /** A printed number read by `to_i` is the number again. */
  lemma NatToStringToI(n: nat)
    ensures ToI(NatToString(n)) == n
  {
    ToIOfDigits(NatToString(n));
    NatToStringValue(n);
  }

  /** `to_i` of a string of digits is its decimal value. */
  lemma ToIOfDigits(s: string)
    requires s != [] && forall k :: 0 <= k < |s| ==> IsDigit(s[k])
    ensures ToI(s) == DecimalValue(s)
  {
    assert SkipSpaces(s) == s by {
      assert !IsSpace(s[0]);
    }
    assert s[0] != '-' && s[0] != '+';
    assert !(|s| >= 2 && s[0] == '0' && (s[1] == 'd' || s[1] == 'D')) by {
      if |s| >= 2 {
        assert IsDigit(s[1]);
      }
    }
    assert ToI(s) == DecimalValue(Numeral(s));
    NumeralOfDigits(s);
  }

  /** A string made only of digits is its own numeral. */
  lemma {:induction false} NumeralOfDigits(s: string)
    requires forall k :: 0 <= k < |s| ==> IsDigit(s[k])
    ensures Numeral(s) == s
  {
    if s != [] {
      NumeralOfDigits(s[1..]);
    }
  }

  /** `to_i` of a plain numeral is its value. */
  lemma ToIOfNumeral()
    ensures ToI("12") == 12
  {
    assert DecimalValue("12") == 12 by {
      assert "12"[..1] == "1";
    }
    NumeralOfDigits("12");
    assert SkipSpaces("12") == "12";
  }

  /** `to_i` is 0 when no numeral starts the text. */
  lemma ToIWithoutNumeral()
    ensures ToI("x1") == 0
  {
    assert SkipSpaces("x1") == "x1";
  }

  /** `to_i` skips leading white space, reads a sign and stops at the first
      character that cannot continue the numeral. */
  lemma ToISignAndSpace()
    ensures ToI(" -3k") == -3
  {
    assert SkipSpaces(" -3k") == "-3k" by {
      assert " -3k"[1..] == "-3k";
    }
    assert Numeral("3k") == "3" by {
      assert "3k"[1..] == "k";
      assert Numeral("k") == [];
    }
    assert DecimalValue("3") == 3;
  }

  /** `to_i` reads an underscore between two digits as a separator. */
  lemma ToIUnderscore()
    ensures ToI("1_000") == 1000
  {
    assert SkipSpaces("1_000") == "1_000";
    assert Numeral("1_000") == "1000" by {
      assert "1_000"[1..] == "_000" && SkipSeparator("_000") == "000";
      NumeralOfDigits("000");
    }
    assert DecimalValue("1000") == 1000 by {
      assert "1000"[..3] == "100" && "100"[..2] == "10" && "10"[..1] == "1";
    }
  }
}
