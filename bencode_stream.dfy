/**
 * `Bencode.java` as it runs: a recursive-descent decoder that reads a
 * `PushbackInputStream` one byte at a time and pushes a byte back before
 * each list or dictionary element, and an encoder that writes to an
 * `OutputStream`. Each decoding method is proved to return what the
 * corresponding function of `BencodeFormat` says about the bytes that were
 * unread when it was called, and to leave unread exactly the bytes that
 * function leaves; the encoder is proved to append `Encode(v)`.
 */
module BencodeStream {
  import opened JavaLang
  import opened TreeMap
  import opened BencodeFormat
  import opened BencodeRoundTrip

  /** `PushbackInputStream(new ByteArrayInputStream(buf))`: a cursor over a byte array and a one-byte pushback buffer. */
  class PushbackStream {
    const buf: array<byte>
    var pos: nat
    /** Bytes pushed back by `unread` and not yet read again (the buffer holds one). */
    var pushed: seq<byte>

    ghost predicate Valid()
      reads this
    {
      pos <= buf.Length && |pushed| <= 1
    }

    /** The bytes the next reads will return, in order. */
    function Remaining(): seq<byte>
      reads this, buf
      requires Valid()
    {
      pushed + buf[pos..]
    }

    constructor (data: array<byte>)
      ensures Valid() && buf == data && pushed == []
      ensures Remaining() == data[..]
    {
      buf := data;
      pos := 0;
      pushed := [];
    }

    /** `read()`: the next byte as 0..255, or -1 at the end of the stream. */
    method Read() returns (c: int)
      requires Valid()
      modifies this
      ensures Valid() && pushed == []
      ensures old(Remaining()) == [] ==> c == -1 && Remaining() == []
      ensures old(Remaining()) != [] ==> c == old(Remaining())[0] as int && Remaining() == old(Remaining())[1..]
    {
      if pushed != [] {
        c := pushed[0] as int;
        assert Remaining() == pushed + buf[pos..];
        pushed := [];
      } else if pos < buf.Length {
        c := buf[pos] as int;
        pos := pos + 1;
      } else {
        c := -1;
      }
    }

    /** `unread(c)`: push back the low byte of c, so -1 comes back as 0xFF. */
    method Unread(c: int)
      requires Valid() && pushed == [] && -1 <= c <= 255
      modifies this
      ensures Valid()
      ensures Remaining() == [ByteOf(c)] + old(Remaining())
    {
      pushed := [ByteOf(c)];
    }

    /**
     * `read(b)`: up to `b.Length` bytes into b, the pushed-back byte first.
     * Returns how many were read, 0 when b is empty, and -1 when nothing is
     * left to read.
     */
    method ReadInto(b: array<byte>) returns (count: int)
      requires Valid() && b != buf
      modifies this, b
      ensures Valid()
      ensures var r := old(Remaining());
        && (b.Length == 0 ==> count == 0 && Remaining() == r)
        && (b.Length > 0 && r == [] ==> count == -1 && Remaining() == r)
        && (b.Length > 0 && r != [] ==>
              && count == Min(b.Length, |r|)
              && b[..count] == r[..count]
              && Remaining() == r[count..])
    {
      var r := Remaining();
      if b.Length == 0 {
        count := 0;
        return;
      }
      if r == [] {
        count := -1;
        return;
      }
      count := Min(b.Length, |r|);
      var i := 0;
      while i < count
        modifies b
        invariant 0 <= i <= count
        invariant b[..i] == r[..i]
      {
        b[i] := r[i];
        i := i + 1;
      }
      var p := |pushed|;
      assert |r| == p + (buf.Length - pos);
      var taken := count - p;
      assert 0 <= taken <= buf.Length - pos;
      assert r[count..] == buf[pos + taken..];
      pos := pos + taken;
      pushed := [];
    }
  }

  /** `(byte) c`: the low eight bits, so -1 becomes 0xFF. */
  function ByteOf(c: int): (b: byte)
    requires -1 <= c <= 255
    ensures c >= 0 ==> b as int == c
    ensures c == -1 ==> b == 0xFF
  {
    if c < 0 then 0xFF else c as byte
  }

  function Min(a: int, b: int): int {
    if a < b then a else b
  }

  /** A method's outcome agrees with its specification function: the same value and unread bytes, or the same error. */
  predicate Agrees(r: Result<BValue>, rest: seq<byte>, spec: Result<Parsed>) {
    match r
    case Ok(v) => spec == Ok(Parsed(v, rest))
    case Err(e) => spec == Err(e)
  }

  /** Whether the next value is a list or a dictionary, that is, whether decoding it recurses. */
  predicate Opens(s: seq<byte>) {
    s != [] && (s[0] == AsciiL || s[0] == AsciiD)
  }

  // ---------------------------------------------------------------- decoder

  /** `decodeBencode(input)`: read the indicator byte and dispatch on it. */
  method DecodeBencode(input: PushbackStream) returns (r: Result<BValue>)
    requires input.Valid()
    modifies input
    ensures input.Valid()
    ensures Agrees(r, input.Remaining(), ParseValue(old(input.Remaining())))
    decreases if Opens(input.Remaining()) then |input.Remaining()| else 0, 0
  {
    ghost var s := input.Remaining();
    var indicator := input.Read();
    if indicator == AsciiI as int {
      r := DecodeInteger(input);
    } else if indicator == AsciiL as int {
      r := DecodeList(input);
    } else if indicator == AsciiD as int {
      r := DecodeDictionary(input);
    } else if 0 <= indicator && IsDigitByte(indicator as byte) {
      r := DecodeString(input, indicator as byte);
    } else {
      r := Err(InvalidFormat);
    }
  }

  /** `decodeInteger(input)`: the characters up to the next `e`, through `Long.parseLong`. */
  method DecodeInteger(input: PushbackStream) returns (r: Result<BValue>)
    requires input.Valid()
    modifies input
    ensures input.Valid()
    ensures Agrees(r, input.Remaining(), ParseInteger(old(input.Remaining())))
  {
    ghost var s := input.Remaining();
    var text := ReadUntil(input, AsciiE);
    match text
    case None =>
      r := Err(Unterminated);
    case Some(t) =>
      match ParseLong(t)
      case None => r := Err(NumberFormat);
      case Some(n) => r := Ok(BInt(n));
  }

  /**
   * The loop both `decodeInteger` and `decodeString` run: append `(char) c`
   * for every byte read until `stop`, which is consumed. At the end of the
   * stream the source keeps reading -1 forever; here that is `None`.
   */
  method ReadUntil(input: PushbackStream, stop: byte) returns (text: Option<string>)
    requires input.Valid()
    modifies input
    ensures input.Valid()
    ensures var s := old(input.Remaining());
      var k := IndexOf(s, stop, 0);
      && (k < 0 ==> text == None)
      && (k >= 0 ==> text == Some(Latin1(s[..k])) && input.Remaining() == s[k + 1..])
  {
    ghost var s := input.Remaining();
    var sb: string := [];
    while true
      invariant input.Valid()
      invariant |sb| <= |s| && input.Remaining() == s[|sb|..]
      invariant sb == Latin1(s[..|sb|])
      invariant forall j :: 0 <= j < |sb| ==> s[j] != stop
      decreases |s| - |sb|
    {
      var c := input.Read();
      if c == -1 {
        return None;
      }
      if c == stop as int {
        IndexOfAt(s, stop, |sb|);
        return Some(sb);
      }
      ReadStep(s, sb, stop);
      sb := sb + [c as char];
    }
  }

  /** One more byte that is not the terminator extends the text read so far. */
  lemma ReadStep(s: seq<byte>, sb: string, stop: byte)
    requires |sb| < |s| && s[|sb|] != stop
    requires sb == Latin1(s[..|sb|])
    requires forall j :: 0 <= j < |sb| ==> s[j] != stop
    ensures sb + [s[|sb|] as int as char] == Latin1(s[..|sb| + 1])
    ensures forall j :: 0 <= j < |sb| + 1 ==> s[j] != stop
  {
    assert s[..|sb| + 1] == s[..|sb|] + [s[|sb|]];
  }

  /**
   * `decodeString(input, firstDigit)`: the length's digits up to `:`, through
   * `Integer.parseInt`, then `read` into a new array of that length; fewer
   * bytes read than asked for is "Invalid string length".
   */
  method DecodeString(input: PushbackStream, firstDigit: byte) returns (r: Result<BValue>)
    requires input.Valid() && IsDigitByte(firstDigit)
    modifies input
    ensures input.Valid()
    ensures Agrees(r, input.Remaining(), ParseString(firstDigit, old(input.Remaining())))
  {
    ghost var s := input.Remaining();
    var rest := ReadUntil(input, AsciiColon);
    if rest.None? {
      return Err(Unterminated);
    }
    var k := IndexOf(s, AsciiColon, 0);
    assert Latin1([firstDigit] + s[..k]) == [firstDigit as int as char] + rest.value;
    var lengthText := [firstDigit as int as char] + rest.value;
    match ParseInt(lengthText)
    case None =>
      r := Err(NumberFormat);
    case Some(length) =>
      assert IsDigit(lengthText[0]);
      ghost var body := input.Remaining();
      var bytes := new byte[length];
      var count := input.ReadInto(bytes);
      if count != length {
        r := Err(InvalidStringLength);
      } else {
        r := Ok(BStr(bytes[..]));
        assert bytes[..] == bytes[..count];
      }
  }

  /**
   * `decodeList(input)`: until an `e` is read, push the byte back and decode
   * one more element.
   */
  method DecodeList(input: PushbackStream) returns (r: Result<BValue>)
    requires input.Valid()
    modifies input
    ensures input.Valid()
    ensures Agrees(r, input.Remaining(), ParseList(old(input.Remaining()), []))
    decreases |input.Remaining()|, 1
  {
    ghost var s := input.Remaining();
    var list: seq<BValue> := [];
    while true
      invariant input.Valid()
      invariant |input.Remaining()| <= |s|
      invariant ParseList(input.Remaining(), list) == ParseList(s, [])
      decreases |input.Remaining()|
    {
      ghost var here := input.Remaining();
      var c := input.Read();
      if c == AsciiE as int {
        return Ok(BList(list));
      }
      input.Unread(c);
      assert here == [] ==> input.Remaining() == [0xFF] && !Opens(input.Remaining());
      assert here != [] ==> input.Remaining() == here;
      var item := DecodeBencode(input);
      if item.Err? {
        return Err(item.error);
      }
      list := list + [item.value];
    }
  }

  /**
   * `decodeDictionary(input)`: until an `e` is read, push the byte back, decode
   * a key (which must be a byte string) and a value, and `put` them into the
   * `TreeMap`.
   */
  method DecodeDictionary(input: PushbackStream) returns (r: Result<BValue>)
    requires input.Valid()
    modifies input
    ensures input.Valid()
    ensures Agrees(r, input.Remaining(), ParseDict(old(input.Remaining()), []))
    decreases |input.Remaining()|, 1
  {
    ghost var s := input.Remaining();
    var map_: seq<Entry<BValue>> := [];
    while true
      invariant input.Valid()
      invariant Sorted(map_)
      invariant |input.Remaining()| <= |s|
      invariant ParseDict(input.Remaining(), map_) == ParseDict(s, [])
      decreases |input.Remaining()|
    {
      ghost var here := input.Remaining();
      var c := input.Read();
      if c == AsciiE as int {
        return Ok(BDict(map_));
      }
      input.Unread(c);
      assert here == [] ==> input.Remaining() == [0xFF] && !Opens(input.Remaining());
      assert here != [] ==> input.Remaining() == here;
      var key := DecodeBencode(input);
      if key.Err? {
        return Err(key.error);
      }
      if !key.value.BStr? {
        return Err(KeyNotString);
      }
      var value := DecodeBencode(input);
      if value.Err? {
        return Err(value.error);
      }
      map_ := Put(map_, key.value.bytes, value.value);
    }
  }

  // ---------------------------------------------------------------- encoder

  /** An `OutputStream` (the `ByteArrayOutputStream` the info hash is computed over): the bytes written so far. */
  class ByteSink {
    var bytes: seq<byte>

    constructor ()
      ensures bytes == []
    {
      bytes := [];
    }

    /** `write(b)` and `write(byte[])`. */
    method Write(bs: seq<byte>)
      modifies this
      ensures bytes == old(bytes) + bs
    {
      bytes := bytes + bs;
    }
  }

  /** `bencode(object, out)`: write the encoding of v after what `out` holds. */
  method Bencode(v: BValue, out: ByteSink)
    modifies out
    ensures out.bytes == old(out.bytes) + Encode(v)
    decreases v, 1
  {
    ghost var before := out.bytes;
    match v
    case BDict(entries) =>
      out.Write([AsciiD]);
      WriteEntries(entries, out);
      out.Write([AsciiE]);
      Framed(before, AsciiD, EncodeEntries(entries), AsciiE);
    case BList(items) =>
      out.Write([AsciiL]);
      WriteItems(items, out);
      out.Write([AsciiE]);
      Framed(before, AsciiL, EncodeItems(items), AsciiE);
    case BInt(n) =>
      out.Write([AsciiI]);
      out.Write(AsciiBytes(LongToString(n)));
      out.Write([AsciiE]);
      Framed(before, AsciiI, AsciiBytes(LongToString(n)), AsciiE);
    case BStr(bs) =>
      WriteByteString(bs, out);
  }

  lemma Framed<T>(before: seq<T>, open: T, middle: seq<T>, close: T)
    ensures before + [open] + middle + [close] == before + ([open] + middle + [close])
  {
  }

  /** The list branch's loop: each element in order. */
  method WriteItems(items: seq<BValue>, out: ByteSink)
    modifies out
    ensures out.bytes == old(out.bytes) + EncodeItems(items)
    decreases items, 0
  {
    var i := 0;
    while i < |items|
      invariant 0 <= i <= |items|
      invariant out.bytes == old(out.bytes) + EncodeItems(items[..i])
    {
      Bencode(items[i], out);
      EncodeItemsSnoc(items, i);
      Assoc(old(out.bytes), EncodeItems(items[..i]), Encode(items[i]));
      i := i + 1;
    }
    assert items[..i] == items;
  }

  /** The dictionary branch's loop: each key as a byte string, then its value, in the map's order. */
  method WriteEntries(entries: seq<Entry<BValue>>, out: ByteSink)
    modifies out
    ensures out.bytes == old(out.bytes) + EncodeEntries(entries)
    decreases entries, 0
  {
    var i := 0;
    while i < |entries|
      invariant 0 <= i <= |entries|
      invariant out.bytes == old(out.bytes) + EncodeEntries(entries[..i])
    {
      WriteByteString(entries[i].key, out);
      Bencode(entries[i].value, out);
      EncodeEntriesSnoc(entries, i);
      Regroup(old(out.bytes), EncodeEntries(entries[..i]), EncodeBytes(entries[i].key), Encode(entries[i].value));
      i := i + 1;
    }
    assert entries[..i] == entries;
  }

  /** The `byte[]` branch (and the `String` branch, on the string's bytes): length, `:`, the bytes. */
  method WriteByteString(bs: seq<byte>, out: ByteSink)
    modifies out
    ensures out.bytes == old(out.bytes) + EncodeBytes(bs)
  {
    out.Write(AsciiBytes(NatToString(|bs|)));
    out.Write([AsciiColon]);
    out.Write(bs);
  }

  lemma {:induction false} EncodeItemsAppend(a: seq<BValue>, b: seq<BValue>)
    ensures EncodeItems(a + b) == EncodeItems(a) + EncodeItems(b)
  {
    if a != [] {
      assert (a + b)[1..] == a[1..] + b;
      EncodeItemsAppend(a[1..], b);
    } else {
      assert a + b == b;
    }
  }

  lemma EncodeItemsSnoc(items: seq<BValue>, i: nat)
    requires i < |items|
    ensures EncodeItems(items[..i + 1]) == EncodeItems(items[..i]) + Encode(items[i])
  {
    assert items[..i + 1] == items[..i] + [items[i]];
    EncodeItemsAppend(items[..i], [items[i]]);
  }

  lemma {:induction false} EncodeEntriesAppend(a: seq<Entry<BValue>>, b: seq<Entry<BValue>>)
    ensures EncodeEntries(a + b) == EncodeEntries(a) + EncodeEntries(b)
  {
    if a != [] {
      assert (a + b)[1..] == a[1..] + b;
      assert (a + b)[0] == a[0];
      assert EncodeEntries(a + b) == EncodeBytes(a[0].key) + Encode(a[0].value) + EncodeEntries(a[1..] + b);
      EncodeEntriesAppend(a[1..], b);
      Assoc(EncodeBytes(a[0].key) + Encode(a[0].value), EncodeEntries(a[1..]), EncodeEntries(b));
    } else {
      assert a + b == b;
    }
  }

  lemma EncodeEntriesSnoc(entries: seq<Entry<BValue>>, i: nat)
    requires i < |entries|
    ensures EncodeEntries(entries[..i + 1])
         == EncodeEntries(entries[..i]) + EncodeBytes(entries[i].key) + Encode(entries[i].value)
  {
    assert entries[..i + 1] == entries[..i] + [entries[i]];
    EncodeEntriesAppend(entries[..i], [entries[i]]);
  }
}
