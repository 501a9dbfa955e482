/**
 * The pieces of the Java platform that the bencode code leans on, written out
 * so that their exact behaviour is part of the model: byte and int widths,
 * `Character.isDigit`, `Long.parseLong` / `Integer.parseInt`,
 * `Long.toString` / `Integer.toString`, `String.indexOf` and the two
 * byte/char conversions the codec uses.
 */
module JavaLang {

  /** A byte as `InputStream.read` returns it and `OutputStream.write` takes it. */
  newtype byte = x: int | 0 <= x < 256

  /** A Java `byte`: 8-bit two's complement. */
  newtype int8 = x: int | -128 <= x < 128

  datatype Option<T> = None | Some(value: T)

  const IntMin: int := -0x8000_0000
  const IntMax: int := 0x7FFF_FFFF
  const LongMin: int := -0x8000_0000_0000_0000
  const LongMax: int := 0x7FFF_FFFF_FFFF_FFFF

  /**
   * Java `int` arithmetic: the mathematical value wrapped into 32 bits, by
   * whole turns of 2^32 (`Int32Wraps` counts them).
   */
  function Int32(x: int): (r: int)
    ensures IntMin <= r <= IntMax
    ensures IntMin <= x <= IntMax ==> r == x
    ensures IntMax < x < IntMax + 0x1_0000_0000 ==> r == x - 0x1_0000_0000
    decreases if x > IntMax then x - IntMax else if x < IntMin then IntMin - x else 0
  {
    if x > IntMax then Int32(x - 0x1_0000_0000)
    else if x < IntMin then Int32(x + 0x1_0000_0000)
    else x
  }

  /** The wrapped value differs from the mathematical one by whole turns of 2^32, and by none exactly when the value fits. */
  lemma {:induction false} Int32Wraps(x: int) returns (turns: int)
    ensures Int32(x) == x - turns * 0x1_0000_0000
    ensures turns == 0 <==> IntMin <= x <= IntMax
    decreases if x > IntMax then x - IntMax else if x < IntMin then IntMin - x else 0
  {
    if x > IntMax {
      var t := Int32Wraps(x - 0x1_0000_0000);
      turns := t + 1;
    } else if x < IntMin {
      var t := Int32Wraps(x + 0x1_0000_0000);
      turns := t - 1;
    } else {
      turns := 0;
    }
  }

  /** `0xFF & b`: the unsigned value of a Java byte. */
  function Unsigned(b: int8): (r: byte)
    ensures r as int % 256 == (b as int + 256) % 256
    ensures b >= 0 ==> r as int == b as int
    ensures b < 0 ==> r as int == b as int + 256
  {
    if b < 0 then (b as int + 256) as byte else b as int as byte
  }

  /** `(byte) x` for x in 0..255: the Java byte with the same low eight bits. */
  function Signed(u: byte): (b: int8)
    ensures Unsigned(b) == u
    ensures -128 <= b as int < 128 && (b as int - u as int) % 256 == 0
  {
    if u < 128 then u as int as int8 else (u as int - 256) as int8
  }

  /**
   * `Character.isDigit`, restricted to ASCII. This is exact on the Latin-1 text
   * of the stream decoder; `Character.isDigit` also accepts other Unicode
   * decimal digits, which the legacy string decoder could meet.
   */
  predicate IsDigit(c: char) {
    '0' <= c <= '9'
  }

  predicate AllDigits(s: string) {
    forall i :: 0 <= i < |s| ==> IsDigit(s[i])
  }

  function DigitValue(c: char): (d: nat)
    requires IsDigit(c)
    ensures d < 10
  {
    c as int - '0' as int
  }

  function DigitChar(d: nat): (c: char)
    requires d < 10
    ensures IsDigit(c) && DigitValue(c) == d
  {
    ('0' as int + d) as char
  }

  /** The value of a run of decimal digits, most significant first. */
  function DigitsValue(s: string): nat
    requires AllDigits(s)
  {
    if s == [] then 0 else 10 * DigitsValue(s[..|s| - 1]) + DigitValue(s[|s| - 1])
  }

  /**
   * `Long.parseLong(text)` (min, max = the `long` range) and
   * `Integer.parseInt(text)` (the `int` range), radix 10: an optional `-` or
   * `+`, then at least one digit, and a value that fits. Leading zeros and
   * `-0` are accepted, as Java accepts them. `None` is a
   * `NumberFormatException`.
   */
  function ParseDecimal(text: string, min: int, max: int): (r: Option<int>)
    ensures r.Some? ==> min <= r.value <= max
    ensures r.Some? ==> text != [] && (AllDigits(text) || text[0] == '-' || text[0] == '+')
    ensures r.Some? && IsDigit(text[0]) ==> r.value >= 0
  {
    if text == [] then None
    else
      var signed := text[0] == '-' || text[0] == '+';
      var digits := if signed then text[1..] else text;
      if digits == [] || !AllDigits(digits) then None
      else
        var value: int := if text[0] == '-' then -(DigitsValue(digits) as int) else DigitsValue(digits);
        if min <= value <= max then Some(value) else None
  }

  /** Plain decimal digits whose value fits are read as that value. */
  lemma ParseDigits(text: string, min: int, max: int)
    requires text != [] && AllDigits(text) && min <= DigitsValue(text) <= max
    ensures ParseDecimal(text, min, max) == Some(DigitsValue(text))
  {
  }

  function ParseLong(text: string): Option<int> {
    ParseDecimal(text, LongMin, LongMax)
  }

  function ParseInt(text: string): Option<int> {
    ParseDecimal(text, IntMin, IntMax)
  }

  /** `Integer.toString(n)` / `Long.toString(n)` for n >= 0: shortest decimal text. */
  function NatToString(n: nat): (s: string)
    ensures |s| >= 1 && AllDigits(s)
    ensures |s| > 1 ==> s[0] != '0'
  {
    if n < 10 then [DigitChar(n)] else NatToString(n / 10) + [DigitChar(n % 10)]
  }

  /** The digits `toString` prints have the value printed. */
  lemma {:induction false} NatToStringValue(n: nat)
    ensures DigitsValue(NatToString(n)) == n
  {
    if n >= 10 {
      var s := NatToString(n);
      assert s[..|s| - 1] == NatToString(n / 10);
      NatToStringValue(n / 10);
    }
  }

  /** `Long.toString(n)`: a `-` for negative values, then the magnitude's digits. */
  function LongToString(n: int): string {
    if n < 0 then "-" + NatToString(-n) else NatToString(n)
  }

  /** Parsing the text `Long.toString` printed gives the number back, within range. */
  lemma ParseToString(n: int, min: int, max: int)
    requires min <= n <= max
    ensures ParseDecimal(LongToString(n), min, max) == Some(n)
  {
    if n < 0 {
      var digits := NatToString(-n);
      var s := "-" + digits;
      assert s[1..] == digits;
      NatToStringValue(-n);
      assert ParseDecimal(s, min, max) == Some(-(DigitsValue(digits) as int));
    } else {
      NatToStringValue(n);
      ParseDigits(NatToString(n), min, max);
    }
  }

  /** `Integer.parseInt` reads back what `Integer.toString` printed for a length. */
  lemma ParseNatToString(n: nat)
    requires n <= IntMax
    ensures ParseInt(NatToString(n)) == Some(n)
  {
    ParseToString(n, IntMin, IntMax);
  }

  /** `String.indexOf(x, from)`: the first position at or after `from` holding x, or -1. */
  function IndexOf<T(==)>(s: seq<T>, x: T, from: nat): (r: int)
    ensures r == -1 || (from <= r < |s| && s[r] == x)
    ensures forall j :: from <= j < |s| && (r == -1 || j < r) ==> s[j] != x
    decreases |s| - from
  {
    if from >= |s| then -1
    else if s[from] == x then from
    else IndexOf(s, x, from + 1)
  }

  /** The first occurrence of x, found where it is: `indexOf` stops there. */
  lemma IndexOfAt<T>(s: seq<T>, x: T, k: nat)
    requires k < |s| && s[k] == x
    requires forall j :: 0 <= j < k ==> s[j] != x
    ensures IndexOf(s, x, 0) == k
  {
  }

  /** The same, searching from `from`: `indexOf(x, from)`. */
  lemma IndexOfFrom<T>(s: seq<T>, x: T, from: nat, k: nat)
    requires from <= k < |s| && s[k] == x
    requires forall j :: from <= j < k ==> s[j] != x
    ensures IndexOf(s, x, from) == k
  {
  }

  /** `(char) c` applied to each byte read from a stream. */
  function Latin1(bs: seq<byte>): (s: string)
    ensures |s| == |bs|
  {
    seq(|bs|, i requires 0 <= i < |bs| => bs[i] as int as char)
  }

  lemma Latin1Append(a: seq<byte>, b: seq<byte>)
    ensures Latin1(a + b) == Latin1(a) + Latin1(b)
  {
  }

  /** `s.getBytes(US_ASCII)`: characters outside ASCII become `?`. */
  function AsciiBytes(s: string): (bs: seq<byte>)
    ensures |bs| == |s|
  {
    seq(|s|, i requires 0 <= i < |s| => if (s[i] as int) < 128 then s[i] as int as byte else 63)
  }

  predicate IsAscii(s: string) {
    forall i :: 0 <= i < |s| ==> (s[i] as int) < 128
  }

  /** Reading back as characters the ASCII bytes of an ASCII text gives the text. */
  lemma Latin1OfAscii(s: string)
    requires IsAscii(s)
    ensures Latin1(AsciiBytes(s)) == s
  {
  }

  lemma LongToStringAscii(n: int)
    ensures IsAscii(LongToString(n))
    ensures var s := LongToString(n); forall i :: 0 <= i < |s| ==> s[i] == '-' || IsDigit(s[i])
  {
  }
}
