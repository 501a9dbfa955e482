/**
 * Lowercase hexadecimal text of Java byte arrays, in the two styles the
 * program uses: the nibble table of `Utils.getHex`, and the
 * `Integer.toHexString(0xFF & b)` loop with zero padding of the two
 * `calculateSHA1` methods. Both give two characters per byte, high nibble
 * first; `Hex` is that text and the two loops are proved to build it.
 */
module HexFormat {
  import opened JavaLang

  /** `HEXES`: the sixteen digits, in order of value. */
  const Hexes: string := "0123456789abcdef"

  predicate IsHexDigit(c: char) {
    '0' <= c <= '9' || 'a' <= c <= 'f'
  }

  /** The value of a lowercase hexadecimal digit. */
  function DigitValue16(c: char): (d: nat)
    requires IsHexDigit(c)
    ensures d < 16 && Hexes[d] == c
  {
    if c <= '9' then c as int - '0' as int else c as int - 'a' as int + 10
  }

  lemma DigitOfValue(d: nat)
    requires d < 16
    ensures IsHexDigit(Hexes[d]) && DigitValue16(Hexes[d]) == d
  {
  }

  // ---------------------------------------------------------------- the text

  /** The two characters for one unsigned byte: the digit of its high nibble, then that of its low one. */
  function HexPair(u: byte): string {
    [Hexes[u as int / 16], Hexes[u as int % 16]]
  }

  /** The hexadecimal text of a byte array: two characters per byte, in order. */
  function Hex(raw: seq<int8>): string {
    if raw == [] then [] else Hex(raw[..|raw| - 1]) + HexPair(Unsigned(raw[|raw| - 1]))
  }

  /** Byte k is written as characters 2k and 2k+1, nothing else is written, and every character is a digit of `HEXES`. */
  lemma {:induction false} HexAt(raw: seq<int8>)
    ensures |Hex(raw)| == 2 * |raw|
    ensures forall k :: 0 <= k < |raw| ==>
      Hex(raw)[2 * k] == Hexes[Unsigned(raw[k]) as int / 16] &&
      Hex(raw)[2 * k + 1] == Hexes[Unsigned(raw[k]) as int % 16]
  {
    if raw != [] {
      var init := raw[..|raw| - 1];
      var last := HexPair(Unsigned(raw[|raw| - 1]));
      HexAt(init);
      var h := Hex(raw);
      assert h == Hex(init) + last;
      forall k | 0 <= k < |raw|
        ensures h[2 * k] == Hexes[Unsigned(raw[k]) as int / 16]
        ensures h[2 * k + 1] == Hexes[Unsigned(raw[k]) as int % 16]
      {
        if k < |raw| - 1 {
          assert init[k] == raw[k];
          assert h[2 * k] == Hex(init)[2 * k] && h[2 * k + 1] == Hex(init)[2 * k + 1];
        } else {
          assert h[2 * k] == last[0] && h[2 * k + 1] == last[1];
        }
      }
    }
  }

  lemma HexAlphabet(raw: seq<int8>)
    ensures forall i :: 0 <= i < |Hex(raw)| ==> Hex(raw)[i] in Hexes
  {
    HexAt(raw);
    forall i | 0 <= i < |Hex(raw)| ensures Hex(raw)[i] in Hexes {
      var k := i / 2;
      if i % 2 == 0 {
        assert i == 2 * k;
      } else {
        assert i == 2 * k + 1;
      }
    }
  }

  /** The text of two arrays one after the other is the text of the first, then that of the second. */
  lemma {:induction false} HexAppend(a: seq<int8>, b: seq<int8>)
    ensures Hex(a + b) == Hex(a) + Hex(b)
    decreases |b|
  {
    if b == [] {
      assert a + b == a;
    } else {
      var init := b[..|b| - 1];
      assert (a + b)[..|a + b| - 1] == a + init;
      HexAppend(a, init);
    }
  }

  // ---------------------------------------------------------------- reading it back

  /** Reading a text two digits at a time as unsigned bytes; nothing for any other character or an odd length. */
  function ReadHex(s: string): Option<seq<byte>> {
    if |s| < 2 then (if s == [] then Some([]) else None)
    else
      var n := |s|;
      if !IsHexDigit(s[n - 2]) || !IsHexDigit(s[n - 1]) then None
      else match ReadHex(s[..n - 2])
        case None => None
        case Some(init) => Some(init + [(16 * DigitValue16(s[n - 2]) + DigitValue16(s[n - 1])) as byte])
  }

  function Unsigneds(raw: seq<int8>): (us: seq<byte>)
    ensures |us| == |raw|
  {
    seq(|raw|, k requires 0 <= k < |raw| => Unsigned(raw[k]))
  }

  /** Two more digits at the end read as one more byte. */
  lemma ReadHexSnoc(s: string, t: string, c1: char, c2: char)
    requires IsHexDigit(c1) && IsHexDigit(c2) && s == t + [c1, c2]
    ensures ReadHex(s) ==
      match ReadHex(t)
      case None => None
      case Some(init) => Some(init + [(16 * DigitValue16(c1) + DigitValue16(c2)) as byte])
  {
    assert s[..|s| - 2] == t;
  }

  /** The byte whose nibble digits those are. */
  lemma PairValue(u: byte)
    ensures var p := HexPair(u);
      IsHexDigit(p[0]) && IsHexDigit(p[1]) && (16 * DigitValue16(p[0]) + DigitValue16(p[1])) as byte == u
  {
    DigitOfValue(u as int / 16);
    DigitOfValue(u as int % 16);
  }

  lemma UnsignedsSnoc(raw: seq<int8>)
    requires raw != []
    ensures Unsigneds(raw) == Unsigneds(raw[..|raw| - 1]) + [Unsigned(raw[|raw| - 1])]
  {
  }

  /** Reading each character pair back as a base-16 number gives the unsigned bytes. */
  lemma {:induction false} ReadHexOfHex(raw: seq<int8>)
    ensures ReadHex(Hex(raw)) == Some(Unsigneds(raw))
  {
    if raw != [] {
      var init := raw[..|raw| - 1];
      var u := Unsigned(raw[|raw| - 1]);
      var p := HexPair(u);
      var c1, c2 := p[0], p[1];
      ReadHexOfHex(init);
      PairValue(u);
      assert Hex(raw) == Hex(init) + [c1, c2];
      ReadHexSnoc(Hex(raw), Hex(init), c1, c2);
      UnsignedsSnoc(raw);
    }
  }

  /** And the other way: a text that reads back as bytes is the text of those bytes. */
  lemma {:induction false} HexOfReadHex(s: string, raw: seq<int8>)
    requires ReadHex(s) == Some(Unsigneds(raw))
    ensures Hex(raw) == s
    decreases |s|
  {
    if |s| >= 2 {
      var n := |s|;
      var t, c1, c2 := s[..n - 2], s[n - 2], s[n - 1];
      assert s == t + [c1, c2];
      ReadHexSnoc(s, t, c1, c2);
      var h, l := DigitValue16(c1), DigitValue16(c2);
      var us := Unsigneds(raw);
      var front := ReadHex(t).value;
      assert front + [(16 * h + l) as byte] == us;
      var init := raw[..|raw| - 1];
      UnsignedsSnoc(raw);
      SnocEqual(front, (16 * h + l) as byte, Unsigneds(init), Unsigned(raw[|raw| - 1]));
      HexOfReadHex(t, init);
      var u := Unsigned(raw[|raw| - 1]);
      PairOfDigits(c1, c2, u);
      assert Hex(raw) == Hex(init) + HexPair(u);
    } else {
      assert s == [] && |Unsigneds(raw)| == 0;
    }
  }

  lemma SnocEqual<T>(a: seq<T>, x: T, b: seq<T>, y: T)
    requires a + [x] == b + [y]
    ensures a == b && x == y
  {
    assert a == (a + [x])[..|a|];
    assert b == (b + [y])[..|b|];
  }

  /** The two digits are the pair of the byte they read as. */
  lemma PairOfDigits(c1: char, c2: char, u: byte)
    requires IsHexDigit(c1) && IsHexDigit(c2)
    requires u == (16 * DigitValue16(c1) + DigitValue16(c2)) as byte
    ensures HexPair(u) == [c1, c2]
  {
    var h, l := DigitValue16(c1), DigitValue16(c2);
    assert (16 * h + l) / 16 == h && (16 * h + l) % 16 == l;
  }

  // ---------------------------------------------------------------- Integer.toHexString

  /** `Integer.toHexString(n)` for n >= 0: its base-16 digits, without leading zeros. */
  function ToHexString(n: nat): string
    decreases n
  {
    if n < 16 then [Hexes[n]] else ToHexString(n / 16) + [Hexes[n % 16]]
  }

  /** The value of a run of hexadecimal digits. */
  function HexValue(s: string): nat
    requires forall i :: 0 <= i < |s| ==> IsHexDigit(s[i])
  {
    if s == [] then 0 else 16 * HexValue(s[..|s| - 1]) + DigitValue16(s[|s| - 1])
  }

  /** `toHexString` writes hexadecimal digits that read back as n, and starts with `0` only for 0 itself. */
  lemma {:induction false} ToHexStringValue(n: nat)
    ensures var s := ToHexString(n);
      && s != [] && (forall i :: 0 <= i < |s| ==> IsHexDigit(s[i]))
      && HexValue(s) == n
      && (s[0] == '0' ==> n == 0)
    decreases n
  {
    DigitOfValue(n % 16);
    if n >= 16 {
      ToHexStringValue(n / 16);
      var s := ToHexString(n);
      assert s[..|s| - 1] == ToHexString(n / 16);
    }
  }

  /** For a byte: one digit below 16, two from 16 on. */
  lemma ToHexStringOfByte(u: byte)
    ensures |ToHexString(u as int)| == (if u < 16 then 1 else 2)
    ensures u >= 16 ==> ToHexString(u as int) == HexPair(u)
    ensures u < 16 ==> ToHexString(u as int) == [Hexes[u as int]]
  {
  }

  /** The padded `toHexString` of `0xFF & b` is the pair of nibble digits: a leading `0` below 16. */
  lemma PaddedIsPair(b: int8)
    ensures var h := ToHexString(Unsigned(b) as int);
      (if |h| == 1 then ['0'] + h else h) == HexPair(Unsigned(b))
    ensures Unsigned(b) < 16 ==> HexPair(Unsigned(b))[0] == '0'
  {
    ToHexStringOfByte(Unsigned(b));
  }

  /** `0xFF & b` on a negative byte gives 128..255: two digits, the first `8` to `f`, no sign extension. */
  lemma NegativeByte(b: int8)
    requires b < 0
    ensures var h := Hex([b]);
      |h| == 2 && h[0] in "89abcdef" && h == HexPair((b as int + 256) as byte)
  {
    var u := Unsigned(b) as int;
    assert [b][..0] == [];
    assert 8 <= u / 16 < 16;
  }

  // ---------------------------------------------------------------- getHex

  /** `b & 0xf0` on the `int` a Java byte is promoted to: bits 4 to 7 of its two's complement form. */
  function MaskHigh(x: int): int {
    x % 256 - x % 16
  }

  /** `b & 0x0f` on that `int`: its low four bits. */
  function MaskLow(x: int): int {
    x % 16
  }

  /** Whatever the sign of b, `(b & 0xf0) >> 4` and `b & 0x0f` are the nibbles of its unsigned value. */
  lemma Nibbles(b: int8)
    ensures MaskHigh(b as int) / 16 == Unsigned(b) as int / 16
    ensures MaskLow(b as int) == Unsigned(b) as int % 16
  {
    var x := b as int;
    var u := Unsigned(b) as int;
    assert x % 256 == u;
    assert x % 16 == u % 16;
  }

  /** `Utils.getHex(raw)`: append the table digits of each byte's two nibbles. */
  method GetHex(raw: array<int8>) returns (hex: string)
    ensures hex == Hex(raw[..])
  {
    hex := [];
    for k := 0 to raw.Length
      invariant hex == Hex(raw[..k])
    {
      var b := raw[k];
      Nibbles(b);
      hex := hex + [Hexes[MaskHigh(b as int) / 16]] + [Hexes[MaskLow(b as int)]];
      assert raw[..k + 1][..k] == raw[..k];
    }
    assert raw[..raw.Length] == raw[..];
  }

  /** The loop of `calculateSHA1` in `Utils` and in `HashingUtils`: `toHexString(0xFF & b)`, padded with a `0` to two digits. */
  method FormatDigest(digest: array<int8>) returns (hex: string)
    ensures hex == Hex(digest[..])
  {
    hex := [];
    for k := 0 to digest.Length
      invariant hex == Hex(digest[..k])
    {
      var h := ToHexString(Unsigned(digest[k]) as int);
      PaddedIsPair(digest[k]);
      if |h| == 1 {
        hex := hex + ['0'];
      }
      hex := hex + h;
      assert digest[..k + 1][..k] == digest[..k];
    }
    assert digest[..digest.Length] == digest[..];
  }

  /** `calculateSHA1(input)`: the digest of the input (a parameter here), as hexadecimal text. */
  method CalculateSha1(sha1: seq<int8> -> seq<int8>, input: array<int8>) returns (hex: string)
    ensures hex == Hex(sha1(input[..]))
  {
    var d := sha1(input[..]);
    var messageDigest := new int8[|d|](k requires 0 <= k < |d| => d[k]);
    hex := FormatDigest(messageDigest);
    assert messageDigest[..] == d;
  }

  /** A 20-byte SHA-1 digest gives 40 hexadecimal characters. */
  lemma DigestText(digest: seq<int8>)
    requires |digest| == 20
    ensures |Hex(digest)| == 40
    ensures forall i :: 0 <= i < 40 ==> Hex(digest)[i] in Hexes
  {
    HexAt(digest);
    HexAlphabet(digest);
  }
}
