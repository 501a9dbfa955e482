/**
 * What the stream codec promises about its two directions: decoding what
 * `bencode` wrote gives the tree back, with the cursor right after it, and
 * what the decoder returns is already in the encoder's canonical form (its
 * dictionaries come out of a `TreeMap`, so they re-encode in ascending key
 * order).
 */
module BencodeRoundTrip {
  import opened JavaLang
  import opened TreeMap
  import opened BencodeFormat

  // ---------------------------------------------------------------- scalars

  /** Every encoding is non-empty and starts with `i`, `l`, `d` or a digit, never with `e`. */
  lemma EncodeHead(v: BValue)
    ensures Encode(v) != []
    ensures var b := Encode(v)[0];
      && b != AsciiE
      && (b == AsciiI <==> v.BInt?)
      && (b == AsciiL <==> v.BList?)
      && (b == AsciiD <==> v.BDict?)
      && (IsDigitByte(b) <==> v.BStr?)
  {
    if v.BStr? {
      var digits := NatToString(|v.bytes|);
      assert IsDigit(digits[0]);
      assert Encode(v)[0] == AsciiBytes(digits)[0];
    }
  }

  /** `i`, the decimal text of n, `e`: `decodeInteger` reads n back and stops after the `e`. */
  lemma IntRoundTrip(n: int, rest: seq<byte>)
    requires LongMin <= n <= LongMax
    ensures ParseValue(Encode(BInt(n)) + rest) == Ok(Parsed(BInt(n), rest))
  {
    var text := LongToString(n);
    var t := AsciiBytes(text);
    LongToStringAscii(n);
    var s := Encode(BInt(n)) + rest;
    var u := s[1..];
    assert u == t + [AsciiE] + rest;
    assert forall j :: 0 <= j < |t| ==> u[j] != AsciiE by {
      forall j | 0 <= j < |t| ensures u[j] != AsciiE {
        assert u[j] == t[j];
        assert text[j] == '-' || IsDigit(text[j]);
      }
    }
    IndexOfAt(u, AsciiE, |t|);
    assert u[..|t|] == t;
    Latin1OfAscii(text);
    ParseToString(n, LongMin, LongMax);
    assert u[|t| + 1..] == rest;
  }

  /** Length, `:`, bytes: `decodeString` reads exactly those bytes back. */
  lemma StrRoundTrip(bs: seq<byte>, rest: seq<byte>)
    requires |bs| <= IntMax
    ensures ParseValue(Encode(BStr(bs)) + rest) == Ok(Parsed(BStr(bs), rest))
  {
    var digits := NatToString(|bs|);
    var t := AsciiBytes(digits);
    var s := Encode(BStr(bs)) + rest;
    EncodeHead(BStr(bs));
    assert s[0] == Encode(BStr(bs))[0] == t[0];
    assert s[1..] == t[1..] + [AsciiColon] + (bs + rest);
    LengthText(digits, bs + rest);
    NatToStringValue(|bs|);
    ParseStringAt(s[0], s[1..], |t| - 1, digits, bs, rest);
  }

  /** In the text of a length, the first `:` is the one after the digits, and the text reads back. */
  lemma LengthText(digits: string, tail: seq<byte>)
    requires digits != [] && AllDigits(digits)
    ensures var t := AsciiBytes(digits);
      var u := t[1..] + [AsciiColon] + tail;
      && IndexOf(u, AsciiColon, 0) == |t| - 1
      && Latin1([t[0]] + u[..|t| - 1]) == digits
      && u[|t|..] == tail
  {
    var t := AsciiBytes(digits);
    var u := t[1..] + [AsciiColon] + tail;
    ColonAfterDigits(digits, tail);
    assert [t[0]] + u[..|t| - 1] == t;
    Latin1OfAscii(digits);
  }

  /** `decodeString` once the `:` and the length text are known. */
  lemma ParseStringAt(first: byte, u: seq<byte>, k: nat, digits: string, bs: seq<byte>, rest: seq<byte>)
    requires IsDigitByte(first)
    requires k < |u| && IndexOf(u, AsciiColon, 0) == k
    requires Latin1([first] + u[..k]) == digits
    requires digits != [] && AllDigits(digits) && DigitsValue(digits) == |bs| <= IntMax
    requires u[k + 1..] == bs + rest
    ensures ParseString(first, u) == Ok(Parsed(BStr(bs), rest))
  {
    ParseDigits(digits, IntMin, IntMax);
    var body := u[k + 1..];
    assert body[..|bs|] == bs && body[|bs|..] == rest;
  }

  /** In the text of a length, the first `:` is the one after the digits. */
  lemma ColonAfterDigits(digits: string, tail: seq<byte>)
    requires digits != [] && AllDigits(digits)
    ensures var t := AsciiBytes(digits);
      IndexOf(t[1..] + [AsciiColon] + tail, AsciiColon, 0) == |t| - 1
  {
    var t := AsciiBytes(digits);
    var u := t[1..] + [AsciiColon] + tail;
    forall j | 0 <= j < |t| - 1 ensures u[j] != AsciiColon {
      assert u[j] == t[j + 1];
      assert IsDigit(digits[j + 1]);
    }
    IndexOfAt(u, AsciiColon, |t| - 1);
  }

  // ---------------------------------------------------------------- trees

  /**
   * Decoding `bencode(v)` followed by anything gives the normalised tree of
   * v and leaves exactly what followed. For a tree whose dictionaries are
   * already sorted, the normalised tree is v itself (`DecodeOfEncode`).
   */
  lemma {:induction false} RoundTrip(v: BValue, rest: seq<byte>)
    requires WellFormed(v)
    ensures ParseValue(Encode(v) + rest) == Ok(Parsed(Normalize(v), rest))
    decreases v, 0
  {
    match v
    case BInt(n) => IntRoundTrip(n, rest);
    case BStr(bs) => StrRoundTrip(bs, rest);
    case BList(items) => ListRoundTrip(items, rest);
    case BDict(es) => DictRoundTrip(es, rest);
  }

  lemma {:induction false} ListRoundTrip(items: seq<BValue>, rest: seq<byte>)
    requires forall i :: 0 <= i < |items| ==> WellFormed(items[i])
    ensures ParseValue(Encode(BList(items)) + rest) == Ok(Parsed(BList(NormalizeItems(items)), rest))
    decreases items, 3
  {
    var s := Encode(BList(items)) + rest;
    assert s == [AsciiL] + (EncodeItems(items) + [AsciiE] + rest);
    ItemsRoundTrip(items, [], rest);
    assert [] + NormalizeItems(items) == NormalizeItems(items);
  }

  lemma {:induction false} DictRoundTrip(es: seq<Entry<BValue>>, rest: seq<byte>)
    requires forall i :: 0 <= i < |es| ==> |es[i].key| <= IntMax && WellFormed(es[i].value)
    ensures ParseValue(Encode(BDict(es)) + rest) == Ok(Parsed(BDict(PutAll([], NormalizeEntries(es))), rest))
    decreases es, 3
  {
    var s := Encode(BDict(es)) + rest;
    assert s == [AsciiD] + (EncodeEntries(es) + [AsciiE] + rest);
    EntriesRoundTrip(es, [], rest);
  }

  /** The list loop reads the items back in order and consumes the closing `e`. */
  lemma {:induction false} ItemsRoundTrip(items: seq<BValue>, acc: seq<BValue>, rest: seq<byte>)
    requires forall i :: 0 <= i < |items| ==> WellFormed(items[i])
    ensures ParseList(EncodeItems(items) + [AsciiE] + rest, acc)
         == Ok(Parsed(BList(acc + NormalizeItems(items)), rest))
    decreases items, 2
  {
    if items == [] {
      assert EncodeItems(items) + [AsciiE] + rest == [AsciiE] + rest;
      assert acc + NormalizeItems(items) == acc;
    } else {
      var acc' := acc + [Normalize(items[0])];
      ItemsStep(items, acc, rest);
      ItemsRoundTrip(items[1..], acc', rest);
      AppendNormalized(items, acc);
    }
  }

  lemma AppendNormalized(items: seq<BValue>, acc: seq<BValue>)
    requires items != []
    ensures acc + [Normalize(items[0])] + NormalizeItems(items[1..]) == acc + NormalizeItems(items)
  {
  }

  /** One turn of the list loop: the first item is decoded and appended. */
  lemma {:induction false} ItemsStep(items: seq<BValue>, acc: seq<BValue>, rest: seq<byte>)
    requires items != [] && WellFormed(items[0])
    ensures ParseList(EncodeItems(items) + [AsciiE] + rest, acc)
         == ParseList(EncodeItems(items[1..]) + [AsciiE] + rest, acc + [Normalize(items[0])])
    decreases items, 1
  {
    var tail := EncodeItems(items[1..]) + [AsciiE] + rest;
    var s := Encode(items[0]) + tail;
    ItemsSplit(items, rest);
    EncodeHead(items[0]);
    RoundTrip(items[0], tail);
    ListStep(s, acc, Encode(items[0]), Parsed(Normalize(items[0]), tail));
  }

  lemma ItemsSplit(items: seq<BValue>, rest: seq<byte>)
    requires items != []
    ensures EncodeItems(items) + [AsciiE] + rest
         == Encode(items[0]) + (EncodeItems(items[1..]) + [AsciiE] + rest)
  {
    Regroup(Encode(items[0]), EncodeItems(items[1..]), [AsciiE], rest);
  }

  lemma EntriesSplit(es: seq<Entry<BValue>>, tail: seq<byte>)
    requires es != []
    ensures EncodeEntries(es) + tail
         == Encode(BStr(es[0].key)) + (Encode(es[0].value) + (EncodeEntries(es[1..]) + tail))
  {
    var k, v, t := Encode(BStr(es[0].key)), Encode(es[0].value), EncodeEntries(es[1..]);
    Assoc(k + v, t, tail);
    Assoc(k, v, t + tail);
  }

  lemma Assoc<T>(a: seq<T>, b: seq<T>, c: seq<T>)
    ensures a + b + c == a + (b + c)
  {
  }

  lemma Regroup<T>(a: seq<T>, b: seq<T>, c: seq<T>, d: seq<T>)
    ensures a + b + c + d == a + (b + c + d)
  {
  }

  lemma ListStep(s: seq<byte>, acc: seq<BValue>, head: seq<byte>, p: Parsed)
    requires head != [] && head[0] != AsciiE && s == head + p.rest
    requires ParseValue(s) == Ok(p)
    ensures ParseList(s, acc) == ParseList(p.rest, acc + [p.value])
  {
    assert s[0] == head[0];
  }

  /** The dictionary loop puts each pair it reads back into the `TreeMap`, in encoding order. */
  lemma {:induction false} EntriesRoundTrip(es: seq<Entry<BValue>>, acc: seq<Entry<BValue>>, rest: seq<byte>)
    requires Sorted(acc)
    requires forall i :: 0 <= i < |es| ==> |es[i].key| <= IntMax && WellFormed(es[i].value)
    ensures ParseDict(EncodeEntries(es) + [AsciiE] + rest, acc)
         == Ok(Parsed(BDict(PutAll(acc, NormalizeEntries(es))), rest))
    decreases es, 2
  {
    if es == [] {
      assert EncodeEntries(es) + [AsciiE] + rest == [AsciiE] + rest;
    } else {
      Assoc(EncodeEntries(es), [AsciiE], rest);
      Assoc(EncodeEntries(es[1..]), [AsciiE], rest);
      EntriesStep(es, acc, [AsciiE] + rest);
      EntriesRoundTrip(es[1..], Put(acc, es[0].key, Normalize(es[0].value)), rest);
      assert NormalizeEntries(es)[1..] == NormalizeEntries(es[1..]);
    }
  }

  /**
   * One turn of the dictionary loop: the first key and value are decoded and
   * put, whatever follows the entries.
   */
  lemma {:induction false} EntriesStep(es: seq<Entry<BValue>>, acc: seq<Entry<BValue>>, after: seq<byte>)
    requires Sorted(acc)
    requires es != [] && |es[0].key| <= IntMax && WellFormed(es[0].value)
    ensures ParseDict(EncodeEntries(es) + after, acc)
         == ParseDict(EncodeEntries(es[1..]) + after, Put(acc, es[0].key, Normalize(es[0].value)))
    decreases es, 1
  {
    var tail := EncodeEntries(es[1..]) + after;
    var afterKey := Encode(es[0].value) + tail;
    var s := Encode(BStr(es[0].key)) + afterKey;
    EntriesSplit(es, after);
    EncodeHead(BStr(es[0].key));
    StrRoundTrip(es[0].key, afterKey);
    RoundTrip(es[0].value, tail);
    DictStep(s, acc, Encode(BStr(es[0].key)), es[0].key, afterKey, Parsed(Normalize(es[0].value), tail));
  }

  lemma DictStep(s: seq<byte>, acc: seq<Entry<BValue>>, head: seq<byte>, key: seq<byte>,
                 afterKey: seq<byte>, p: Parsed)
    requires Sorted(acc)
    requires head != [] && head[0] != AsciiE && s == head + afterKey
    requires ParseValue(s) == Ok(Parsed(BStr(key), afterKey))
    requires ParseValue(afterKey) == Ok(p)
    ensures ParseDict(s, acc) == ParseDict(p.rest, Put(acc, key, p.value))
  {
    assert s[0] == head[0];
  }

  // ---------------------------------------------------------------- canonical trees

  lemma {:induction false} CanonicalWellFormed(v: BValue)
    requires Canonical(v)
    ensures WellFormed(v)
    decreases v
  {
    match v
    case BInt(_) =>
    case BStr(_) =>
    case BList(items) =>
      forall i | 0 <= i < |items| ensures WellFormed(items[i]) {
        CanonicalWellFormed(items[i]);
      }
    case BDict(es) =>
      forall i | 0 <= i < |es| ensures WellFormed(es[i].value) {
        CanonicalWellFormed(es[i].value);
      }
  }

  /** A tree whose dictionaries are sorted is its own normal form. */
  lemma {:induction false} NormalizeCanonical(v: BValue)
    requires Canonical(v)
    ensures Normalize(v) == v
    decreases v, 1
  {
    match v
    case BInt(_) =>
    case BStr(_) =>
    case BList(items) => NormalizeItemsCanonical(items);
    case BDict(es) =>
      NormalizeEntriesCanonical(es);
      PutAllOfSorted(es);
  }

  lemma {:induction false} NormalizeItemsCanonical(items: seq<BValue>)
    requires forall i :: 0 <= i < |items| ==> Canonical(items[i])
    ensures NormalizeItems(items) == items
    decreases items, 0
  {
    if items != [] {
      NormalizeCanonical(items[0]);
      NormalizeItemsCanonical(items[1..]);
      assert items == [items[0]] + items[1..];
    }
  }

  lemma {:induction false} NormalizeEntriesCanonical(es: seq<Entry<BValue>>)
    requires forall i :: 0 <= i < |es| ==> Canonical(es[i].value)
    ensures NormalizeEntries(es) == es
    decreases es, 0
  {
    if es != [] {
      NormalizeCanonical(es[0].value);
      NormalizeEntriesCanonical(es[1..]);
      assert es == [es[0]] + es[1..];
    }
  }

  /**
   * The round trip of the codec: decoding the encoding of a tree of
   * integers, byte strings, lists and sorted dictionaries gives the same
   * tree, with the whole encoding consumed.
   */
  lemma DecodeOfEncode(v: BValue)
    requires Canonical(v)
    ensures ParseValue(Encode(v)) == Ok(Parsed(v, []))
  {
    CanonicalWellFormed(v);
    RoundTrip(v, []);
    assert Encode(v) + [] == Encode(v);
    NormalizeCanonical(v);
  }

  // ---------------------------------------------------------------- decoder output

  /** Entries as a decoded `TreeMap` holds them: ascending keys, each key and value canonical. */
  predicate CanonicalEntries(es: seq<Entry<BValue>>) {
    && Sorted(es)
    && forall i :: 0 <= i < |es| ==> |es[i].key| <= IntMax && Canonical(es[i].value)
  }

  /**
   * Whatever the decoder returns is canonical: every dictionary in it is in
   * ascending key order, which is the order `bencode` then writes it in.
   */
  lemma {:induction false} ParsedCanonical(s: seq<byte>)
    ensures ParseValue(s).Ok? ==> Canonical(ParseValue(s).value.value)
    decreases |s|, 0
  {
    if s != [] {
      if s[0] == AsciiI {
      } else if s[0] == AsciiL {
        ParsedListCanonical(s[1..], []);
      } else if s[0] == AsciiD {
        ParsedDictCanonical(s[1..], []);
      }
    }
  }

  lemma {:induction false} ParsedListCanonical(s: seq<byte>, acc: seq<BValue>)
    requires forall i :: 0 <= i < |acc| ==> Canonical(acc[i])
    ensures ParseList(s, acc).Ok? ==> Canonical(ParseList(s, acc).value.value)
    decreases |s|, 1
  {
    if s != [] && s[0] != AsciiE {
      ParsedCanonical(s);
      match ParseValue(s)
      case Err(_) =>
      case Ok(p) => ParsedListCanonical(p.rest, acc + [p.value]);
    }
  }

  lemma {:induction false} ParsedDictCanonical(s: seq<byte>, acc: seq<Entry<BValue>>)
    requires CanonicalEntries(acc)
    ensures ParseDict(s, acc).Ok? ==> Canonical(ParseDict(s, acc).value.value)
    decreases |s|, 1
  {
    if s != [] && s[0] != AsciiE {
      ParsedCanonical(s);
      match ParseValue(s)
      case Err(_) =>
      case Ok(k) =>
        if k.value.BStr? {
          ParsedCanonical(k.rest);
          match ParseValue(k.rest)
          case Err(_) =>
          case Ok(v) =>
            var next := Put(acc, k.value.bytes, v.value);
            PutKeepsCanonical(acc, k.value.bytes, v.value);
            ParsedDictCanonical(v.rest, next);
        }
    }
  }

  lemma PutKeepsCanonical(acc: seq<Entry<BValue>>, key: seq<byte>, value: BValue)
    requires CanonicalEntries(acc) && |key| <= IntMax && Canonical(value)
    ensures CanonicalEntries(Put(acc, key, value))
  {
    var r := Put(acc, key, value);
    PutMembers(acc, key, value);
    forall i | 0 <= i < |r| ensures |r[i].key| <= IntMax && Canonical(r[i].value) {
      assert r[i] in r;
      if r[i] != Entry(key, value) {
        var j :| 0 <= j < |acc| && acc[j] == r[i];
      }
    }
  }

  /**
   * Decoding, re-encoding and decoding again gives the same tree and uses up
   * the re-encoding: the bytes `bencode` writes for a decoded value are
   * exactly the value's canonical encoding.
   */
  lemma ReencodeDecoded(s: seq<byte>)
    requires ParseValue(s).Ok?
    ensures var v := ParseValue(s).value.value;
      ParseValue(Encode(v)) == Ok(Parsed(v, []))
  {
    ParsedCanonical(s);
    DecodeOfEncode(ParseValue(s).value.value);
  }
}
