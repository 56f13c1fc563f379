/** The small part of the Java platform the inventory model depends on:
    the 32-bit `int`, nullable references, `Integer.parseInt`,
    `String.trim().isEmpty()` and `String.toLowerCase()`.

    `Integer.parseInt` is modelled over an optional sign and ASCII digits
    only, and `toLowerCase` over ASCII letters only. */
module JavaLang {

  const MinInt32: int := -0x8000_0000
  const MaxInt32: int := 0x7FFF_FFFF

  /** Java's `int`. */
  type Int32 = x: int | MinInt32 <= x <= MaxInt32

  /** A Java reference that may be `null`. */
  datatype Nullable<+T> = Null | NonNull(value: T)

  datatype Option<+T> = None | Some(value: T)

  /** Two's-complement wrap-around of an integer into the `int` range,
      as Java's `++` does on overflow. */
  function Wrap32(x: int): (r: Int32)
    ensures MinInt32 <= x <= MaxInt32 ==> r == x
    ensures x == MaxInt32 + 1 ==> r == MinInt32
  {
    (x - MinInt32) % 0x1_0000_0000 + MinInt32
  }

  // ---------------------------------------------------------------------
  // String.trim
  // ---------------------------------------------------------------------

  /** A character `String.trim` strips: every code unit up to U+0020. */
  predicate IsTrimmable(c: char) {
    c <= ' '
  }

  predicate AllTrimmable(s: string) {
    forall i :: 0 <= i < |s| ==> IsTrimmable(s[i])
  }

  /** `s` without its leading trimmable characters. */
  function TrimStart(s: string): (r: string)
    ensures |r| <= |s| && r == s[|s| - |r|..]
    ensures |r| > 0 ==> !IsTrimmable(r[0])
    ensures AllTrimmable(s[..|s| - |r|])
  {
    if |s| > 0 && IsTrimmable(s[0]) then
      var r := TrimStart(s[1..]);
      assert s[..|s| - |r|] == [s[0]] + s[1..][..|s[1..]| - |r|];
      r
    else s
  }

  /** `s` without its trailing trimmable characters. */
  function TrimEnd(s: string): (r: string)
    ensures |r| <= |s| && r == s[..|r|]
    ensures |r| > 0 ==> !IsTrimmable(r[|r| - 1])
    ensures AllTrimmable(s[|r|..])
  {
    if |s| > 0 && IsTrimmable(s[|s| - 1]) then
      var r := TrimEnd(s[..|s| - 1]);
      assert s[|r|..] == s[..|s| - 1][|r|..] + [s[|s| - 1]];
      r
    else s
  }

  /** Java's `String.trim()`. */
  function Trim(s: string): string {
    TrimEnd(TrimStart(s))
  }

  /** `s == null || s.trim().isEmpty()`, the blank test of both validators. */
  predicate IsBlank(s: Nullable<string>) {
    s.Null? || |Trim(s.value)| == 0
  }

  /** A string trims to nothing exactly when every character is trimmable. */
  lemma TrimEmptyIff(s: string)
    ensures |Trim(s)| == 0 <==> AllTrimmable(s)
  {
    var t := TrimStart(s);
    if |Trim(s)| == 0 {
      assert AllTrimmable(t[0..]);
      assert s == s[..|s| - |t|] + t;
    } else {
      assert |t| > 0 && t[0] == s[|s| - |t|];
    }
  }

  /** A non-null string is blank exactly when it holds only trimmable characters. */
  lemma BlankIff(s: Nullable<string>)
    ensures IsBlank(s) <==> s.Null? || AllTrimmable(s.value)
  {
    if s.NonNull? {
      TrimEmptyIff(s.value);
    }
  }

  // ---------------------------------------------------------------------
  // String.toLowerCase (ASCII letters only)
  // ---------------------------------------------------------------------

  predicate IsUpper(c: char) {
    'A' <= c <= 'Z'
  }

  function LowerChar(c: char): (r: char)
    ensures !IsUpper(r)
  {
    if IsUpper(c) then (c as int + 32) as char else c
  }

  function UpperChar(c: char): char {
    if 'a' <= c <= 'z' then (c as int - 32) as char else c
  }

  /** `s.toLowerCase()` restricted to ASCII letters. */
  function LowerAscii(s: string): (r: string)
    ensures |r| == |s|
    ensures forall i :: 0 <= i < |s| ==> r[i] == LowerChar(s[i])
  {
    seq(|s|, i requires 0 <= i < |s| => LowerChar(s[i]))
  }

  function UpperAscii(s: string): (r: string)
    ensures |r| == |s|
    ensures forall i :: 0 <= i < |s| ==> r[i] == UpperChar(s[i])
  {
    seq(|s|, i requires 0 <= i < |s| => UpperChar(s[i]))
  }

  /** Lower-casing ignores the case a string was written in: the upper-case
      spelling and the lower-case spelling of a string fold to the same text,
      and folding twice changes nothing. */
  lemma LowerAsciiIgnoresCase(s: string)
    ensures LowerAscii(UpperAscii(s)) == LowerAscii(s)
    ensures LowerAscii(LowerAscii(s)) == LowerAscii(s)
  {
  }

  // ---------------------------------------------------------------------
  // Integer.parseInt
  // ---------------------------------------------------------------------

  predicate IsDigit(c: char) {
    '0' <= c <= '9'
  }

  predicate AllDigits(s: string) {
    forall i :: 0 <= i < |s| ==> IsDigit(s[i])
  }

  function DigitValue(c: char): nat
    requires IsDigit(c)
  {
    c as int - '0' as int
  }

  function DigitChar(d: nat): (c: char)
    requires d < 10
    ensures IsDigit(c) && DigitValue(c) == d
  {
    ('0' as int + d) as char
  }

  /** The value of a run of decimal digits, most significant first. */
  function DigitsValue(ds: string): nat
    requires AllDigits(ds)
  {
    if |ds| == 0 then 0
    else DigitsValue(ds[..|ds| - 1]) * 10 + DigitValue(ds[|ds| - 1])
  }

  /** The decimal text of `n`, without leading zeros. */
  function ShowNat(n: nat): (r: string)
    ensures |r| > 0 && AllDigits(r)
  {
    if n < 10 then [DigitChar(n)] else ShowNat(n / 10) + [DigitChar(n % 10)]
  }

  /** The decimal text of `v` as `Integer.toString` writes it. */
  function ShowInt(v: int): string {
    if v < 0 then "-" + ShowNat(-v) else ShowNat(v)
  }

  /** The shape `Integer.parseInt` accepts: an optional `+` or `-`
      followed by at least one digit. */
  predicate IsIntegerText(t: string) {
    |t| > 0 &&
    var digits := if t[0] == '-' || t[0] == '+' then t[1..] else t;
    |digits| > 0 && AllDigits(digits)
  }

  /** The mathematical value of a text of shape `IsIntegerText`. */
  function TextValue(t: string): int
    requires IsIntegerText(t)
  {
    if t[0] == '-' then -(DigitsValue(t[1..]) as int)
    else if t[0] == '+' then DigitsValue(t[1..])
    else DigitsValue(t)
  }

  /** Java's `Integer.parseInt(s)`; `None` stands for the
      `NumberFormatException` it throws on null, on text that is not an
      optionally signed run of digits, and on a value outside `int`. */
  function ParseInt(s: Nullable<string>): (r: Option<Int32>)
    ensures r.Some? <==> s.NonNull? && IsIntegerText(s.value)
                         && MinInt32 <= TextValue(s.value) <= MaxInt32
    ensures r.Some? ==> r.value == TextValue(s.value)
  {
    if s.Null? || |s.value| == 0 then None
    else
      var t := s.value;
      var negative := t[0] == '-';
      var digits := if negative || t[0] == '+' then t[1..] else t;
      if |digits| == 0 || !AllDigits(digits) then None
      else
        var magnitude: int := DigitsValue(digits);
        var v := if negative then -magnitude else magnitude;
        if MinInt32 <= v <= MaxInt32 then Some(v) else None
  }

  /** `Inventory.isInt`: whether `Integer.parseInt` accepts the text. */
  function IsInt(input: string): (r: bool)
    ensures r <==> IsIntegerText(input) && MinInt32 <= TextValue(input) <= MaxInt32
  {
    ParseInt(NonNull(input)).Some?
  }

  lemma {:induction false} DigitsOfShowNat(n: nat)
    ensures DigitsValue(ShowNat(n)) == n
  {
    if n >= 10 {
      var prefix := ShowNat(n / 10);
      var s := prefix + [DigitChar(n % 10)];
      assert s[..|s| - 1] == prefix;
      DigitsOfShowNat(n / 10);
    }
  }

  /** Parsing the decimal text of any `int` gives that `int` back. */
  lemma ParseShowInt(v: Int32)
    ensures ParseInt(NonNull(ShowInt(v))) == Some(v)
  {
    var t := ShowInt(v);
    if v < 0 {
      DigitsOfShowNat(-(v as int));
      assert t[0] == '-' && t[1..] == ShowNat(-(v as int));
      assert IsIntegerText(t) && TextValue(t) == v;
    } else {
      DigitsOfShowNat(v);
      assert t == ShowNat(v) && IsDigit(t[0]);
      assert IsIntegerText(t) && TextValue(t) == v;
    }
  }
}
