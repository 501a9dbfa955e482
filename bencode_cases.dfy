/**
 * The decoder's individual cases: how each leading byte is dispatched, the
 * short byte string, the empty containers, a key that is not a byte string,
 * and what a dictionary with repeated or reordered keys decodes to.
 */
module BencodeCases {
  import opened JavaLang
  import opened TreeMap
  import opened BencodeFormat
  import opened BencodeRoundTrip

  /** A first byte other than `i`, `l`, `d` or a digit, or no byte at all, is "Invalid bencode format". */
  lemma InvalidLeadingByte(s: seq<byte>)
    requires s == [] || (s[0] !in {AsciiI, AsciiL, AsciiD} && !IsDigitByte(s[0]))
    ensures ParseValue(s) == Err(InvalidFormat)
  {
  }

  /**
   * A length prefix promising more bytes than remain is "Invalid string length",
   * on a JVM with memory enough for the `byte[]` of that length.
   */
  lemma ShortString(n: nat, body: seq<byte>)
    requires |body| < n <= IntMax
    ensures ParseValue(AsciiBytes(NatToString(n)) + [AsciiColon] + body) == Err(InvalidStringLength)
  {
    var digits := NatToString(n);
    var t := AsciiBytes(digits);
    var s := t + [AsciiColon] + body;
    assert IsDigit(digits[0]);
    SplitFirst(t, [AsciiColon], body);
    LengthText(digits, body);
    NatToStringValue(n);
    ParseDigits(digits, IntMin, IntMax);
    ParseStringShort(s[0], s[1..], |t| - 1, digits, body);
  }

  lemma SplitFirst<T>(t: seq<T>, c: seq<T>, b: seq<T>)
    requires t != []
    ensures var s := t + c + b;
      s != [] && s[0] == t[0] && s[1..] == t[1..] + c + b
  {
  }

  lemma ParseStringShort(first: byte, u: seq<byte>, k: nat, digits: string, body: seq<byte>)
    requires IsDigitByte(first)
    requires k < |u| && IndexOf(u, AsciiColon, 0) == k
    requires Latin1([first] + u[..k]) == digits
    requires digits != [] && AllDigits(digits) && |body| < DigitsValue(digits)
    requires ParseInt(digits) == Some(DigitsValue(digits))
    requires u[k + 1..] == body
    ensures ParseString(first, u) == Err(InvalidStringLength)
  {
  }

  /** `0:` is the empty byte string: the boundary instance of `StrRoundTrip`. */
  lemma EmptyString(rest: seq<byte>)
    ensures ParseValue(['0' as int as byte, AsciiColon] + rest) == Ok(Parsed(BStr([]), rest))
  {
    assert NatToString(0) == "0";
    assert Encode(BStr([])) == ['0' as int as byte, AsciiColon];
    StrRoundTrip([], rest);
  }

  /**
   * `le` is the empty list and `de` the empty dictionary; both consume the `e`.
   * Boundary instances of `RoundTrip`.
   */
  lemma EmptyContainers(rest: seq<byte>)
    ensures ParseValue([AsciiL, AsciiE] + rest) == Ok(Parsed(BList([]), rest))
    ensures ParseValue([AsciiD, AsciiE] + rest) == Ok(Parsed(BDict([]), rest))
  {
    assert ([AsciiL, AsciiE] + rest)[1..] == [AsciiE] + rest;
    assert ([AsciiD, AsciiE] + rest)[1..] == [AsciiE] + rest;
  }

  /**
   * Every key is cast to `byte[]`: after any run of well-formed entries, a key
   * that is an integer, list or dictionary fails the cast.
   */
  lemma NonStringKey(es: seq<Entry<BValue>>, v: BValue, rest: seq<byte>)
    requires forall i :: 0 <= i < |es| ==> |es[i].key| <= IntMax && WellFormed(es[i].value)
    requires WellFormed(v) && !v.BStr?
    ensures ParseValue([AsciiD] + EncodeEntries(es) + Encode(v) + rest) == Err(KeyNotString)
  {
    var body := EncodeEntries(es) + (Encode(v) + rest);
    var s := [AsciiD] + EncodeEntries(es) + Encode(v) + rest;
    Regroup([AsciiD], EncodeEntries(es), Encode(v), rest);
    Assoc(EncodeEntries(es), Encode(v), rest);
    assert s == [AsciiD] + body;
    assert s[1..] == body;
    KeyCastFails(es, [], v, rest);
  }

  /** The dictionary loop, from any sorted map, reaches the bad key and fails its cast. */
  lemma {:induction false} KeyCastFails(es: seq<Entry<BValue>>, acc: seq<Entry<BValue>>, v: BValue, rest: seq<byte>)
    requires Sorted(acc)
    requires forall i :: 0 <= i < |es| ==> |es[i].key| <= IntMax && WellFormed(es[i].value)
    requires WellFormed(v) && !v.BStr?
    ensures ParseDict(EncodeEntries(es) + (Encode(v) + rest), acc) == Err(KeyNotString)
    decreases |es|
  {
    var t := Encode(v) + rest;
    if es == [] {
      assert EncodeEntries(es) + t == t;
      EncodeHead(v);
      assert t[0] == Encode(v)[0];
      RoundTrip(v, rest);
    } else {
      EntriesStep(es, acc, t);
      KeyCastFails(es[1..], Put(acc, es[0].key, Normalize(es[0].value)), v, rest);
    }
  }

  /** `i0e` and `i-5e`: two instances of the integer encoding that `IntRoundTrip` decodes. */
  lemma IntegerTexts()
    ensures Encode(BInt(0)) == [AsciiI, '0' as int as byte, AsciiE]
    ensures Encode(BInt(-5)) == [AsciiI, '-' as int as byte, '5' as int as byte, AsciiE]
  {
    assert LongToString(0) == "0";
    assert NatToString(5) == "5";
    assert LongToString(-5) == "-5";
  }

  // ---------------------------------------------------------------- dictionaries

  /** The mapping of the normalised entries: each key's value (the last one given) normalised. */
  lemma {:induction false} NormalizedMapping(es: seq<Entry<BValue>>)
    ensures var m := AsMap(es);
      AsMap(NormalizeEntries(es)) == map k | k in m :: Normalize(m[k])
  {
    if es != [] {
      var k0, v0 := es[0].key, es[0].value;
      var m1, u := AsMap(es[1..]), AsMap(es);
      NormalizedMapping(es[1..]);
      NormalizedHead(es);
      assert u == map[k0 := v0] + m1;
      MapThroughUpdate(k0, v0, m1, u, Normalize);
    }
  }

  lemma NormalizedHead(es: seq<Entry<BValue>>)
    requires es != []
    ensures AsMap(NormalizeEntries(es)) == map[es[0].key := Normalize(es[0].value)] + AsMap(NormalizeEntries(es[1..]))
  {
    var n := NormalizeEntries(es);
    assert n[0] == Entry(es[0].key, Normalize(es[0].value));
    assert n[1..] == NormalizeEntries(es[1..]);
  }

  lemma MapThroughUpdate<K, V>(k0: K, v0: V, m: map<K, V>, u: map<K, V>, f: V -> V)
    requires u == map[k0 := v0] + m
    ensures (map k | k in u :: f(u[k])) == map[k0 := f(v0)] + (map k | k in m :: f(m[k]))
  {
  }

  /** In a list of entries, the value of the last entry with a key is what the mapping holds. */
  lemma {:induction false} LastEntryWins<V>(es: seq<Entry<V>>, i: nat)
    requires i < |es|
    requires forall j :: i < j < |es| ==> es[j].key != es[i].key
    ensures es[i].key in AsMap(es) && AsMap(es)[es[i].key] == es[i].value
  {
    if i > 0 {
      forall j | i - 1 < j < |es[1..]| ensures es[1..][j].key != es[1..][i - 1].key {
        assert es[1..][j] == es[j + 1];
      }
      LastEntryWins(es[1..], i - 1);
      assert es[1..][i - 1] == es[i];
    }
  }

  /**
   * Decoding a dictionary encoding gives a `TreeMap` whose keys are the
   * keys written, each mapped to the last value written for it.
   */
  lemma DecodedDictionary(es: seq<Entry<BValue>>)
    requires WellFormed(BDict(es))
    ensures ParseValue(Encode(BDict(es))).Ok?
    ensures var r := ParseValue(Encode(BDict(es))).value;
      && r.rest == []
      && r.value.BDict?
      && Sorted(r.value.entries)
      && AsMap(r.value.entries) == var m := AsMap(es); map k | k in m :: Normalize(m[k])
  {
    RoundTrip(BDict(es), []);
    assert Encode(BDict(es)) + [] == Encode(BDict(es));
    var empty: seq<Entry<BValue>> := [];
    PutAllMap(empty, NormalizeEntries(es));
    AsMapEmpty(empty);
    UnionEmpty(AsMap(NormalizeEntries(es)));
    NormalizedMapping(es);
  }

  /** A repeated key keeps the value of its last occurrence. */
  lemma RepeatedKeyLastWins(es: seq<Entry<BValue>>, i: nat)
    requires WellFormed(BDict(es)) && i < |es|
    requires forall j :: i < j < |es| ==> es[j].key != es[i].key
    ensures var r := ParseValue(Encode(BDict(es)));
      && r.Ok? && r.value.value.BDict?
      && es[i].key in AsMap(r.value.value.entries)
      && AsMap(r.value.value.entries)[es[i].key] == Normalize(es[i].value)
  {
    DecodedDictionary(es);
    LastEntryWins(es, i);
  }

  /**
   * Two dictionaries holding the same keys and values decode identically,
   * whatever order their entries were written in.
   */
  lemma SameMappingSameDecoding(es1: seq<Entry<BValue>>, es2: seq<Entry<BValue>>)
    requires WellFormed(BDict(es1)) && WellFormed(BDict(es2))
    requires AsMap(es1) == AsMap(es2)
    ensures ParseValue(Encode(BDict(es1))) == ParseValue(Encode(BDict(es2)))
  {
    RoundTrip(BDict(es1), []);
    RoundTrip(BDict(es2), []);
    assert Encode(BDict(es1)) + [] == Encode(BDict(es1));
    assert Encode(BDict(es2)) + [] == Encode(BDict(es2));
    NormalizedMapping(es1);
    NormalizedMapping(es2);
    PutAllOrderIndependent(NormalizeEntries(es1), NormalizeEntries(es2));
  }
}
