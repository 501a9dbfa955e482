/**
 * The bencode value tree and the byte format, as the stream codec in
 * `Bencode.java` reads and writes it: `Encode` is what `bencode` writes, and
 * `ParseValue` is what `decodeBencode` returns and how far it moves the
 * stream, as a function of the bytes still to be read.
 */
module BencodeFormat {
  import opened JavaLang
  import opened TreeMap

  /** The objects the codec handles: `Long`, `byte[]`, `List<Object>` and `Map<String, Object>`. */
  datatype BValue =
    | BInt(n: int)
    | BStr(bytes: seq<byte>)
    | BList(items: seq<BValue>)
      /** A map's entries in its iteration order (`keySet()` order). */
    | BDict(entries: seq<Entry<BValue>>)

  /** The exceptions the decoder ends with. */
  datatype DecodeError =
      /** IOException "Invalid bencode format": a value starts with another byte, or input ends. */
    | InvalidFormat
      /** IOException "Invalid string length": fewer bytes left than the length prefix says. */
    | InvalidStringLength
      /** NumberFormatException from `Long.parseLong` or `Integer.parseInt`. */
    | NumberFormat
      /** ClassCastException: a dictionary key that is not a byte string. */
    | KeyNotString
      /** Input ends before the `e` of an integer or the `:` of a length (the source never returns). */
    | Unterminated

  datatype Result<T> = Ok(value: T) | Err(error: DecodeError)

  /** A decoded value and the bytes left after it. */
  datatype Parsed = Parsed(value: BValue, rest: seq<byte>)

  const AsciiI: byte := 'i' as int as byte
  const AsciiL: byte := 'l' as int as byte
  const AsciiD: byte := 'd' as int as byte
  const AsciiE: byte := 'e' as int as byte
  const AsciiColon: byte := ':' as int as byte

  /** `Character.isDigit` on a byte read from the stream. */
  predicate IsDigitByte(b: byte) {
    '0' as int <= b as int <= '9' as int
  }

  // ---------------------------------------------------------------- encoding

  /** A byte string: its length in decimal, `:`, then the bytes verbatim. */
  function EncodeBytes(bs: seq<byte>): seq<byte> {
    AsciiBytes(NatToString(|bs|)) + [AsciiColon] + bs
  }

  /** The bytes `bencode(object, out)` writes. */
  function Encode(v: BValue): seq<byte>
    decreases v, 1
  {
    match v
    case BInt(n) => [AsciiI] + AsciiBytes(LongToString(n)) + [AsciiE]
    case BStr(bs) => EncodeBytes(bs)
    case BList(items) => [AsciiL] + EncodeItems(items) + [AsciiE]
    case BDict(entries) => [AsciiD] + EncodeEntries(entries) + [AsciiE]
  }

  function EncodeItems(items: seq<BValue>): seq<byte>
    decreases items, 0
  {
    if items == [] then [] else Encode(items[0]) + EncodeItems(items[1..])
  }

  /** Each key (as a byte string) then its value, in the map's iteration order. */
  function EncodeEntries(entries: seq<Entry<BValue>>): seq<byte>
    decreases entries, 0
  {
    if entries == [] then []
    else EncodeBytes(entries[0].key) + Encode(entries[0].value) + EncodeEntries(entries[1..])
  }

  // ---------------------------------------------------------------- decoding

  /** A strict suffix: what is left after consuming at least one byte. */
  predicate StrictSuffix(rest: seq<byte>, s: seq<byte>) {
    |rest| < |s| && rest == s[|s| - |rest|..]
  }

  /**
   * `decodeBencode` on a stream whose unread bytes are `s`: the value, and
   * the bytes left unread after it.
   */
  function ParseValue(s: seq<byte>): (r: Result<Parsed>)
    ensures r.Ok? ==> StrictSuffix(r.value.rest, s)
    decreases |s|, 0
  {
    if s == [] then Err(InvalidFormat)
    else if s[0] == AsciiI then ParseInteger(s[1..])
    else if s[0] == AsciiL then ParseList(s[1..], [])
    else if s[0] == AsciiD then ParseDict(s[1..], [])
    else if IsDigitByte(s[0]) then ParseString(s[0], s[1..])
    else Err(InvalidFormat)
  }

  /** `decodeInteger`: the text up to the first `e`, through `Long.parseLong`; the `e` is consumed. */
  function ParseInteger(s: seq<byte>): (r: Result<Parsed>)
    ensures r.Ok? ==> StrictSuffix(r.value.rest, s)
  {
    var k := IndexOf(s, AsciiE, 0);
    if k < 0 then Err(Unterminated)
    else match ParseLong(Latin1(s[..k]))
      case None => Err(NumberFormat)
      case Some(n) => Ok(Parsed(BInt(n), s[k + 1..]))
  }

  /**
   * `decodeString`: the first digit and the text up to the first `:`,
   * through `Integer.parseInt`, is the length n; then exactly n bytes.
   */
  function ParseString(first: byte, s: seq<byte>): (r: Result<Parsed>)
    requires IsDigitByte(first)
    ensures r.Ok? ==> |r.value.rest| <= |s| && r.value.rest == s[|s| - |r.value.rest|..]
  {
    var k := IndexOf(s, AsciiColon, 0);
    if k < 0 then Err(Unterminated)
    else
      var text := Latin1([first] + s[..k]);
      match ParseInt(text)
      case None => Err(NumberFormat)
      case Some(n) =>
        assert text[0] as int == first as int && IsDigit(text[0]);
        assert n >= 0;
        var body := s[k + 1..];
        if n > |body| then Err(InvalidStringLength)
        else
          assert body[n..] == s[k + 1 + n..];
          Ok(Parsed(BStr(body[..n]), body[n..]))
  }

  /**
   * `decodeList` with `acc` decoded so far: values until an `e`, which is
   * consumed. At the end of input `read` gives -1, `unread(-1)` pushes back
   * the byte 0xFF, and `decodeBencode` rejects that byte.
   */
  function ParseList(s: seq<byte>, acc: seq<BValue>): (r: Result<Parsed>)
    ensures r.Ok? ==> StrictSuffix(r.value.rest, s)
    decreases |s|, 1
  {
    if s == [] then Err(InvalidFormat)
    else if s[0] == AsciiE then Ok(Parsed(BList(acc), s[1..]))
    else match ParseValue(s)
      case Err(e) => Err(e)
      case Ok(p) => ParseList(p.rest, acc + [p.value])
  }

  /**
   * `decodeDictionary` with the `TreeMap` `acc` built so far: key/value
   * pairs until an `e`. A key must decode to a byte string; each pair is
   * `put`, so a repeated key keeps its last value.
   */
  function ParseDict(s: seq<byte>, acc: seq<Entry<BValue>>): (r: Result<Parsed>)
    requires Sorted(acc)
    ensures r.Ok? ==> StrictSuffix(r.value.rest, s)
    decreases |s|, 1
  {
    if s == [] then Err(InvalidFormat)
    else if s[0] == AsciiE then Ok(Parsed(BDict(acc), s[1..]))
    else match ParseValue(s)
      case Err(e) => Err(e)
      case Ok(k) =>
        if !k.value.BStr? then Err(KeyNotString)
        else match ParseValue(k.rest)
          case Err(e) => Err(e)
          case Ok(v) => ParseDict(v.rest, Put(acc, k.value.bytes, v.value))
  }

  // ---------------------------------------------------------------- value classes

  /**
   * Trees the decoder can read back: integers within `long`, byte strings
   * and keys no longer than the largest `int`. Dictionary entries may come
   * in any order, as a `HashMap` iterates them, and may repeat a key, as the
   * bytes of a hand-written file may (no Java map holds two equal keys).
   */
  predicate WellFormed(v: BValue)
    decreases v
  {
    match v
    case BInt(n) => LongMin <= n <= LongMax
    case BStr(bs) => |bs| <= IntMax
    case BList(items) => forall i :: 0 <= i < |items| ==> WellFormed(items[i])
    case BDict(es) => forall i :: 0 <= i < |es| ==> |es[i].key| <= IntMax && WellFormed(es[i].value)
  }

  /** Well-formed trees whose every dictionary iterates in ascending key order, as a `TreeMap` does. */
  predicate Canonical(v: BValue)
    decreases v
  {
    match v
    case BInt(n) => LongMin <= n <= LongMax
    case BStr(bs) => |bs| <= IntMax
    case BList(items) => forall i :: 0 <= i < |items| ==> Canonical(items[i])
    case BDict(es) =>
      && Sorted(es)
      && forall i :: 0 <= i < |es| ==> |es[i].key| <= IntMax && Canonical(es[i].value)
  }

  /** The tree the decoder builds from the encoding of `v`: every dictionary put into a `TreeMap`. */
  function Normalize(v: BValue): BValue
    decreases v, 1
  {
    match v
    case BInt(_) => v
    case BStr(_) => v
    case BList(items) => BList(NormalizeItems(items))
    case BDict(es) => BDict(PutAll([], NormalizeEntries(es)))
  }

  function NormalizeItems(items: seq<BValue>): (r: seq<BValue>)
    ensures |r| == |items|
    decreases items, 0
  {
    if items == [] then [] else [Normalize(items[0])] + NormalizeItems(items[1..])
  }

  function NormalizeEntries(es: seq<Entry<BValue>>): (r: seq<Entry<BValue>>)
    ensures |r| == |es|
    ensures forall i :: 0 <= i < |es| ==> r[i].key == es[i].key
    decreases es, 0
  {
    if es == [] then []
    else [Entry(es[0].key, Normalize(es[0].value))] + NormalizeEntries(es[1..])
  }
}
