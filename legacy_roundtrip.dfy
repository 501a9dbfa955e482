/**
 * What the legacy `String` decoder of `Main.java` makes of well-formed
 * bencode text: each branch of its loop on the shapes it expects, the
 * matching `e` that `findCorrespondingEnd` finds, and the whole decoder on
 * the text of any value (one character per encoded byte, as a command-line
 * argument carries it), given fuel at least the text's length.
 */
module LegacyRoundTrip {
  import opened JavaLang
  import opened TreeMap
  import opened BencodeFormat
  import opened BencodeRoundTrip
  import opened LegacyDecoder

  /**
   * The text of v as the legacy decoder receives it: `i`, digits, `e`; a
   * length, `:`, the bytes as characters; `l`, the items, `e`; `d`, each key
   * and value, `e`. `TextIsEncoding` shows that this is the encoding, one
   * character per byte.
   */
  function Text(v: BValue): string
    decreases v, 1
  {
    match v
    case BInt(n) => "i" + LongToString(n) + "e"
    case BStr(bs) => StrText(bs)
    case BList(items) => "l" + ItemsText(items) + "e"
    case BDict(es) => "d" + EntriesText(es) + "e"
  }

  function StrText(bs: seq<byte>): string {
    NatToString(|bs|) + ":" + Latin1(bs)
  }

  /** The text of several values written one after another. */
  function ItemsText(items: seq<BValue>): string
    decreases items, 0
  {
    if items == [] then [] else Text(items[0]) + ItemsText(items[1..])
  }

  function EntriesText(es: seq<Entry<BValue>>): string
    decreases es, 0
  {
    if es == [] then [] else StrText(es[0].key) + Text(es[0].value) + EntriesText(es[1..])
  }

  /** A dictionary's contents as the legacy decoder sees them: each key as a byte string, then its value. */
  function Flatten(es: seq<Entry<BValue>>): (r: seq<BValue>)
    ensures |r| == 2 * |es|
  {
    if es == [] then [] else [BStr(es[0].key), es[0].value] + Flatten(es[1..])
  }

  /** The first entry of a non-empty dictionary becomes its first two elements. */
  lemma FlattenCons(es: seq<Entry<BValue>>)
    requires es != []
    ensures Flatten(es)[0] == BStr(es[0].key) && Flatten(es)[1] == es[0].value
    ensures Flatten(es)[2..] == Flatten(es[1..])
  {
    assert Flatten(es)[2..] == ([BStr(es[0].key), es[0].value] + Flatten(es[1..]))[2..];
  }

  /** The object the legacy decoder is meant to build for v: strings as `String`s, dictionaries as maps where a later key wins. */
  function ToLegacy(v: BValue): LValue
    decreases v, 1
  {
    match v
    case BInt(n) => LLong(n)
    case BStr(bs) => LStr(Latin1(bs))
    case BList(items) => LList(ToLegacyItems(items))
    case BDict(es) => LMap(LegacyEntries(es))
  }

  function ToLegacyItems(items: seq<BValue>): (r: seq<LValue>)
    ensures |r| == |items|
    decreases items, 0
  {
    if items == [] then [] else [ToLegacy(items[0])] + ToLegacyItems(items[1..])
  }

  function LegacyEntries(es: seq<Entry<BValue>>): map<string, LValue>
    decreases es, 0
  {
    if es == [] then map[]
    else map[Latin1(es[0].key) := ToLegacy(es[0].value)] + LegacyEntries(es[1..])
  }

  predicate AllWellFormed(items: seq<BValue>) {
    forall k {:trigger WellFormed(items[k])} :: 0 <= k < |items| ==> WellFormed(items[k])
  }

  // ---------------------------------------------------------------- the texts

  lemma Latin1One(b: byte)
    ensures Latin1([b]) == [b as int as char]
  {
  }

  /** `l` or `d` or `i`, a middle part, `e`: the bytes as characters. */
  lemma Latin1Framed(open: byte, mid: seq<byte>)
    ensures Latin1([open] + mid + [AsciiE]) == [open as int as char] + Latin1(mid) + "e"
  {
    calc {
      Latin1([open] + mid + [AsciiE]);
      { Latin1Append([open] + mid, [AsciiE]); Latin1Append([open], mid); }
      Latin1([open]) + Latin1(mid) + Latin1([AsciiE]);
      { Latin1One(open); Latin1One(AsciiE); }
      [open as int as char] + Latin1(mid) + "e";
    }
  }

  lemma StrTextIsEncoding(bs: seq<byte>)
    ensures Latin1(EncodeBytes(bs)) == StrText(bs)
  {
    var d := NatToString(|bs|);
    var a := AsciiBytes(d);
    assert IsAscii(d);
    calc {
      Latin1(EncodeBytes(bs));
      Latin1(a + [AsciiColon] + bs);
      { Latin1Append(a + [AsciiColon], bs); Latin1Append(a, [AsciiColon]); }
      Latin1(a) + Latin1([AsciiColon]) + Latin1(bs);
      { Latin1One(AsciiColon); Latin1OfAscii(d); }
      d + ":" + Latin1(bs);
    }
  }

  /** The text of v is what `bencode` writes for v, read back one character per byte. */
  lemma {:induction false} TextIsEncoding(v: BValue)
    ensures Latin1(Encode(v)) == Text(v)
    decreases v, 1
  {
    match v
    case BInt(n) =>
      var t := LongToString(n);
      LongToStringAscii(n);
      Latin1Framed(AsciiI, AsciiBytes(t));
      Latin1OfAscii(t);
    case BStr(bs) =>
      StrTextIsEncoding(bs);
    case BList(items) =>
      Latin1Framed(AsciiL, EncodeItems(items));
      ItemsTextIsEncoding(items);
    case BDict(es) =>
      Latin1Framed(AsciiD, EncodeEntries(es));
      EntriesTextIsEncoding(es);
  }

  lemma {:induction false} ItemsTextIsEncoding(items: seq<BValue>)
    ensures Latin1(EncodeItems(items)) == ItemsText(items)
    decreases items, 0
  {
    if items != [] {
      Latin1Append(Encode(items[0]), EncodeItems(items[1..]));
      TextIsEncoding(items[0]);
      ItemsTextIsEncoding(items[1..]);
    }
  }

  lemma {:induction false} EntriesTextIsEncoding(es: seq<Entry<BValue>>)
    ensures Latin1(EncodeEntries(es)) == EntriesText(es)
    decreases es, 0
  {
    if es != [] {
      var a := EncodeBytes(es[0].key);
      var b := Encode(es[0].value);
      var c := EncodeEntries(es[1..]);
      Latin1Append(a + b, c);
      Latin1Append(a, b);
      StrTextIsEncoding(es[0].key);
      TextIsEncoding(es[0].value);
      EntriesTextIsEncoding(es[1..]);
    }
  }

  /** An integer's text, with the digits standing on their own: no `e` among them, and `Long.parseLong` reads n back. */
  lemma IntegerDigits(n: int) returns (t: string)
    requires LongMin <= n <= LongMax
    ensures Text(BInt(n)) == "i" + t + "e"
    ensures forall j :: 0 <= j < |t| ==> t[j] != 'e'
    ensures ParseLong(t) == Some(n)
  {
    t := LongToString(n);
    LongToStringAscii(n);
    ParseToString(n, LongMin, LongMax);
  }

  /** A byte string's text, with its length prefix standing on its own: digits that `Integer.parseInt` reads as the length. */
  lemma LengthDigits(bs: seq<byte>) returns (d: string)
    requires |bs| <= IntMax
    ensures Text(BStr(bs)) == d + ":" + Latin1(bs)
    ensures d != [] && AllDigits(d) && ParseInt(d) == Some(|bs|)
  {
    d := NatToString(|bs|);
    ParseNatToString(|bs|);
  }

  /** A dictionary's text is that of its keys and values as one run of values. */
  lemma {:induction false} EntriesFlatten(es: seq<Entry<BValue>>)
    ensures EntriesText(es) == ItemsText(Flatten(es))
  {
    if es != [] {
      var f := Flatten(es);
      FlattenCons(es);
      EntriesFlatten(es[1..]);
      assert f[1..][1..] == f[2..];
      assert ItemsText(f) == StrText(es[0].key) + (Text(es[0].value) + ItemsText(f[2..]));
    }
  }

  lemma TextDict(es: seq<Entry<BValue>>)
    ensures Text(BDict(es)) == "d" + ItemsText(Flatten(es)) + "e"
  {
    EntriesFlatten(es);
  }

  lemma {:induction false} FlattenWellFormed(es: seq<Entry<BValue>>)
    requires WellFormed(BDict(es))
    ensures AllWellFormed(Flatten(es))
  {
    if es != [] {
      assert WellFormed(BDict(es[1..])) by {
        forall k | 0 <= k < |es[1..]| ensures |es[1..][k].key| <= IntMax && WellFormed(es[1..][k].value) {
          assert es[1..][k] == es[k + 1];
        }
      }
      FlattenWellFormed(es[1..]);
      var f := Flatten(es);
      FlattenCons(es);
      forall k | 0 <= k < |f| ensures WellFormed(f[k]) {
        if k >= 2 {
          assert f[k] == f[2..][k - 2];
        }
      }
    }
  }

  /** The first character of a value's text tells its kind, and is never `e`. */
  lemma TextHead(v: BValue)
    ensures |Text(v)| >= 1
    ensures var c := Text(v)[0];
      && c != 'e'
      && (c == 'i' <==> v.BInt?)
      && (c == 'l' <==> v.BList?)
      && (c == 'd' <==> v.BDict?)
      && (IsDigit(c) <==> v.BStr?)
  {
    match v
    case BInt(n) =>
      assert Text(v)[0] == 'i';
    case BStr(bs) =>
      var d := NatToString(|bs|);
      assert Text(v)[0] == d[0];
      assert IsDigit(d[0]);
    case BList(items) =>
      assert Text(v)[0] == 'l';
    case BDict(es) =>
      assert Text(v)[0] == 'd';
  }

  // ---------------------------------------------------------------- positions

  /** Where t sits inside s from i on. */
  lemma Inside(s: string, i: nat, t: string, q: string)
    requires i <= |s| && s[i..] == t + q
    ensures i + |t| <= |s|
    ensures s[i..i + |t|] == t
    ensures s[i + |t|..] == q
  {
    assert s[i + |t|..] == s[i..][|t|..];
    assert s[i..i + |t|] == s[i..][..|t|];
  }

  /** The character at i is the first of the text that starts there. */
  lemma HeadAt(s: string, i: nat, t: string, q: string)
    requires i <= |s| && s[i..] == t + q && t != []
    ensures i < |s| && s[i] == t[0]
  {
    assert s[i..][0] == s[i];
  }

  lemma AppendNil<T>(a: seq<T>)
    ensures a + [] == a
  {
  }

  lemma Regroup3<T>(a: seq<T>, b: seq<T>, c: seq<T>, d: seq<T>)
    ensures a + b + c + d == a + (b + (c + d))
  {
  }

  /** A length prefix: the colon search stops right after the digits, and they parse to their value. */
  lemma LengthPrefix(s: string, i: nat, d: string, rest: string)
    requires i <= |s| && s[i..] == d + ":" + rest
    requires AllDigits(d)
    ensures i + |d| < |s|
    ensures FirstColon(s, i) == i + |d|
    ensures s[i..i + |d|] == d && s[i + |d| + 1..] == rest
  {
    assert d + ":" + rest == d + (":" + rest);
    Inside(s, i, d, ":" + rest);
    HeadAt(s, i + |d|, ":", rest);
    Inside(s, i + |d|, ":", rest);
    forall j | i <= j < i + |d| ensures s[j] != ':' {
      assert s[j] == s[i..i + |d|][j - i];
    }
    IndexOfFrom(s, ':', i, i + |d|);
  }

  /** The first x at or after `from` is the one that ends a run t free of x. */
  lemma FirstAfter(s: string, from: nat, t: string, x: char, q: string)
    requires from <= |s| && s[from..] == t + [x] + q
    requires forall j :: 0 <= j < |t| ==> t[j] != x
    ensures from + |t| < |s| && IndexOf(s, x, from) == from + |t|
    ensures s[from..from + |t|] == t && s[from + |t| + 1..] == q
  {
    assert t + [x] + q == t + ([x] + q);
    Inside(s, from, t, [x] + q);
    HeadAt(s, from + |t|, [x], q);
    Inside(s, from + |t|, [x], q);
    forall j | from <= j < from + |t| ensures s[j] != x {
      assert s[j] == s[from..from + |t|][j - from];
    }
    IndexOfFrom(s, x, from, from + |t|);
  }

  /** An integer's text: the first `e` after the `i` is its own. */
  lemma IntegerText(s: string, i: nat, n: int, q: string) returns (e: nat)
    requires LongMin <= n <= LongMax
    requires i <= |s| && s[i..] == Text(BInt(n)) + q
    ensures i < e < |s| && s[i] == 'i' && e == i + |Text(BInt(n))| - 1
    ensures IndexOf(s, 'e', i) == e
  {
    var t := IntegerDigits(n);
    assert "i" + t + "e" + q == "i" + (t + ['e'] + q);
    HeadAt(s, i, "i", t + ['e'] + q);
    Inside(s, i, "i", t + ['e'] + q);
    FirstAfter(s, i + 1, t, 'e', q);
    e := i + |t| + 1;
  }

  /** An integer's text: the first `e` after the `i` is its own, and `Long.parseLong` reads the number from the digits before it. */
  lemma IntegerDigitsAt(s: string, i: nat, n: int, q: string) returns (e: nat)
    requires LongMin <= n <= LongMax
    requires i <= |s| && s[i..] == Text(BInt(n)) + q
    ensures i < e < |s| && s[i] == 'i' && e == i + |Text(BInt(n))| - 1
    ensures IndexOf(s, 'e', i) == e
    ensures ParseLong(s[i + 1..e]) == Some(n)
  {
    var t := IntegerDigits(n);
    assert "i" + t + "e" + q == "i" + (t + ['e'] + q);
    HeadAt(s, i, "i", t + ['e'] + q);
    Inside(s, i, "i", t + ['e'] + q);
    FirstAfter(s, i + 1, t, 'e', q);
    e := i + |t| + 1;
    assert s[i + 1..e] == t;
  }

  // ---------------------------------------------------------------- the decoder's branches

  /**
   * The digit branch: the number before the first `:` is the length L; the
   * next L characters are the string, and decoding goes on after them.
   */
  lemma StepString(s: string, i: nat, d: string, body: string, q: string, fuel: nat)
    requires i <= |s| && s[i..] == d + ":" + body + q
    requires AllDigits(d) && ParseInt(d) == Some(|body|)
    ensures i < |s|
    ensures Step(s, i, fuel) == Outcome.Ok((LStr(body), i + |d| + 1 + |body|))
  {
    assert d + ":" + body + q == d + ":" + (body + q);
    LengthPrefix(s, i, d, body + q);
    Inside(s, i + |d| + 1, body, q);
  }

  /** The same branch when fewer than L characters follow: `substring` is out of bounds. */
  lemma StepStringShort(s: string, i: nat, d: string, body: string, fuel: nat)
    requires i <= |s| && s[i..] == d + ":" + body
    requires AllDigits(d) && ParseInt(d).Some? && |body| < ParseInt(d).value
    ensures i < |s|
    ensures Step(s, i, fuel) == Outcome.Err(IndexOutOfBounds)
  {
    LengthPrefix(s, i, d, body);
  }

  /**
   * The integer branch: the text between `i` and the next `e` goes through
   * `Long.parseLong`, and decoding goes on after that `e`.
   */
  lemma StepInteger(s: string, i: nat, e: nat, n: int, fuel: nat)
    requires i < e < |s| && s[i] == 'i' && IndexOf(s, 'e', i) == e
    requires ParseLong(s[i + 1..e]) == Some(n)
    ensures Step(s, i, fuel) == Outcome.Ok((LLong(n), e + 1))
  {
  }

  /**
   * The list branch on contents w that end just before the matching `e`:
   * the contents decoded as a list, and decoding goes on after that `e`
   * (`le` gives the empty list either way).
   */
  lemma ListAtContents(s: string, i: nat, fuel: nat, w: string, v: LValue, end: nat, next: nat)
    requires i < |s| && s[i] == 'l'
    requires FindEnd(s, i, ListType, fuel) == Outcome.Ok(end) && next == end + 1
    requires i + 1 <= end <= |s| && s[i + 1..end] == w
    requires LegacyDecode(w, true, fuel) == Outcome.Ok(v)
    ensures Step(s, i, fuel) == Outcome.Ok((v, next))
  {
    if w == [] {
      assert DecodeFrom(w, 0, [], fuel) == Outcome.Ok([]);
    }
  }

  /**
   * The dictionary branch on contents w that end just before the matching
   * `e`: the contents decoded as a list, paired up into a map, and decoding
   * goes on after that `e`.
   */
  lemma DictAtContents(s: string, i: nat, fuel: nat, w: string, items: seq<LValue>, m: map<string, LValue>, end: nat, next: nat)
    requires i < |s| && s[i] == 'd'
    requires FindEnd(s, i, DictionaryType, fuel) == Outcome.Ok(end) && next == end + 1
    requires i + 1 <= end <= |s| && s[i + 1..end] == w
    requires LegacyDecode(w, true, fuel) == Outcome.Ok(LList(items))
    requires PutPairs(items, map[]) == Outcome.Ok(m)
    ensures Step(s, i, fuel) == Outcome.Ok((LMap(m), next))
  {
    if w == [] {
      assert DecodeFrom(w, 0, [], fuel) == Outcome.Ok([]);
    }
  }

  /** A leading character that opens no value fails, whatever follows. */
  lemma UnsupportedLeading(s: string, isList: bool, fuel: nat)
    requires s != [] && !IsDigit(s[0]) && s[0] != 'i' && s[0] != 'l' && s[0] != 'd'
    ensures LegacyDecode(s, isList, fuel) == Outcome.Err(Unsupported)
  {
    assert Step(s, 0, fuel) == Outcome.Err(Unsupported);
  }

  // ---------------------------------------------------------------- findCorrespondingEnd

  /** Skipping an integer lands on its `e`. */
  lemma SkipIntegerText(s: string, i: nat, e: nat, fuel: nat)
    requires i < e < |s| && s[i] == 'i' && IndexOf(s, 'e', i) == e
    ensures SkipElement(s, i, fuel) == Outcome.Ok(e)
  {
  }

  /** Skipping a byte string lands on its last character: the colon's index plus the length. */
  lemma SkipStringText(s: string, i: nat, d: string, body: string, q: string, fuel: nat)
    requires i <= |s| <= IntMax && s[i..] == d + ":" + body + q
    requires d != [] && AllDigits(d) && ParseInt(d) == Some(|body|)
    ensures i < |s| && SkipElement(s, i, fuel) == Outcome.Ok(i + |d| + |body|)
  {
    assert d + ":" + body + q == d + ":" + (body + q);
    LengthPrefix(s, i, d, body + q);
    assert s[i] == s[i..i + |d|][0];
  }

  /** Skipping over the text of v lands on its last character. */
  lemma SkipEncoded(s: string, i: nat, v: BValue, q: string, fuel: nat)
    requires WellFormed(v) && |s| <= IntMax
    requires i <= |s| && s[i..] == Text(v) + q
    requires fuel >= |Text(v)|
    ensures i < |s|
    ensures SkipElement(s, i, fuel) == Outcome.Ok(i + |Text(v)| - 1)
    decreases |Text(v)|, 4
  {
    if v.BInt? {
      SkipIntValue(s, i, v, q, fuel);
    } else if v.BStr? {
      SkipStrValue(s, i, v, q, fuel);
    } else {
      SkipContainer(s, i, v, q, fuel);
    }
  }

  lemma SkipIntValue(s: string, i: nat, v: BValue, q: string, fuel: nat)
    requires v.BInt? && WellFormed(v)
    requires i <= |s| && s[i..] == Text(v) + q
    ensures i < |s| && SkipElement(s, i, fuel) == Outcome.Ok(i + |Text(v)| - 1)
  {
    var n := v.n;
    assert v == BInt(n);
    var e := IntegerText(s, i, n, q);
    SkipIntegerText(s, i, e, fuel);
  }

  lemma SkipStrValue(s: string, i: nat, v: BValue, q: string, fuel: nat)
    requires v.BStr? && WellFormed(v) && |s| <= IntMax
    requires i <= |s| && s[i..] == Text(v) + q
    ensures i < |s| && SkipElement(s, i, fuel) == Outcome.Ok(i + |Text(v)| - 1)
  {
    var d := LengthDigits(v.bytes);
    SkipStringText(s, i, d, Latin1(v.bytes), q, fuel);
  }

  lemma SkipContainer(s: string, i: nat, v: BValue, q: string, fuel: nat)
    requires (v.BList? || v.BDict?) && WellFormed(v) && |s| <= IntMax
    requires i <= |s| && s[i..] == Text(v) + q
    requires fuel >= |Text(v)|
    ensures i < |s| && SkipElement(s, i, fuel) == Outcome.Ok(i + |Text(v)| - 1)
    decreases |Text(v)|, 3
  {
    FindEndEncoded(s, i, v, q, fuel);
  }

  /**
   * `findCorrespondingEnd` on a list or dictionary: the index of its own
   * closing `e`, whatever precedes or follows it.
   */
  lemma FindEndEncoded(s: string, i: nat, v: BValue, q: string, fuel: nat)
    requires (v.BList? || v.BDict?) && WellFormed(v) && |s| <= IntMax
    requires i <= |s| && s[i..] == Text(v) + q
    requires fuel >= |Text(v)| - 1
    ensures i < |s| && s[i] == (if v.BList? then 'l' else 'd')
    ensures FindEnd(s, i, if v.BList? then ListType else DictionaryType, fuel) == Outcome.Ok(i + |Text(v)| - 1)
    decreases |Text(v)|, 2
  {
    if v.BList? {
      FindEndList(s, i, v.items, q, fuel);
    } else {
      FindEndDict(s, i, v.entries, q, fuel);
    }
  }

  lemma FindEndList(s: string, i: nat, items: seq<BValue>, q: string, fuel: nat)
    requires AllWellFormed(items) && |s| <= IntMax
    requires i <= |s| && s[i..] == Text(BList(items)) + q
    requires fuel >= |Text(BList(items))| - 1
    ensures i < |s| && s[i] == 'l'
    ensures FindEnd(s, i, ListType, fuel) == Outcome.Ok(i + |Text(BList(items))| - 1)
    decreases |Text(BList(items))|, 1
  {
    Regroup3("l", ItemsText(items), "e", q);
    FindEndItems(s, i, ListType, items, q, fuel);
  }

  lemma FindEndDict(s: string, i: nat, es: seq<Entry<BValue>>, q: string, fuel: nat)
    requires WellFormed(BDict(es)) && |s| <= IntMax
    requires i <= |s| && s[i..] == Text(BDict(es)) + q
    requires fuel >= |Text(BDict(es))| - 1
    ensures i < |s| && s[i] == 'd'
    ensures FindEnd(s, i, DictionaryType, fuel) == Outcome.Ok(i + |Text(BDict(es))| - 1)
    decreases |Text(BDict(es))|, 1
  {
    TextDict(es);
    FlattenWellFormed(es);
    Regroup3("d", ItemsText(Flatten(es)), "e", q);
    FindEndItems(s, i, DictionaryType, Flatten(es), q, fuel);
  }

  /** The same over the opening character, the items' text and the closing `e`. */
  lemma FindEndItems(s: string, i: nat, t: EncodedType, items: seq<BValue>, q: string, fuel: nat)
    requires t == ListType || t == DictionaryType
    requires AllWellFormed(items) && |s| <= IntMax
    requires i <= |s| && s[i..] == [Opener(t).value] + (ItemsText(items) + ("e" + q))
    requires fuel >= |ItemsText(items)| + 1
    ensures i < |s| && s[i] == Opener(t).value
    ensures FindEnd(s, i, t, fuel) == Outcome.Ok(i + |ItemsText(items)| + 1)
    decreases |ItemsText(items)| + 2, 0
  {
    var rest := ItemsText(items) + ("e" + q);
    HeadAt(s, i, [Opener(t).value], rest);
    Inside(s, i, [Opener(t).value], rest);
    ScanItems(s, i + 1, items, q, fuel);
  }

  /** One turn of the scanning loop over an element that is not `e`: it goes on just after the element's end. */
  lemma ScanStep(s: string, i: nat, next: int, fuel: nat)
    requires i < |s| && fuel > 0 && s[i] != 'e'
    requires SkipElement(s, i, fuel - 1) == Outcome.Ok(next - 1)
    requires 0 <= next <= IntMax
    ensures Scan(s, i, fuel) == Scan(s, next, fuel - 1)
  {
  }

  /** The scanning loop at the end of the text: -1. */
  lemma ScanAtEnd(s: string, i: nat, fuel: nat)
    requires i <= |s| && s[i..] == []
    ensures Scan(s, i, fuel) == Outcome.Ok(-1)
  {
    assert |s[i..]| == 0;
  }

  /** The scanning loop on an `e`: that index. */
  lemma ScanAtE(s: string, i: nat, fuel: nat)
    requires i < |s| && s[i] == 'e' && fuel > 0
    ensures Scan(s, i, fuel) == Outcome.Ok(i)
  {
  }

  /** The first of a run of values: its text starts at i, and the rest of the run follows it. */
  lemma ItemAt(s: string, i: nat, items: seq<BValue>, tail: string)
    requires items != [] && AllWellFormed(items)
    requires i <= |s| && s[i..] == ItemsText(items) + tail
    ensures WellFormed(items[0]) && AllWellFormed(items[1..])
    ensures i + |Text(items[0])| <= |s| && s[i] != 'e'
    ensures s[i..] == Text(items[0]) + (ItemsText(items[1..]) + tail)
    ensures s[i + |Text(items[0])|..] == ItemsText(items[1..]) + tail
    ensures |ItemsText(items)| == |Text(items[0])| + |ItemsText(items[1..])|
  {
    TextHead(items[0]);
    Piece(s, i, Text(items[0]), ItemsText(items[1..]), tail);
  }

  lemma Piece(s: string, i: nat, t: string, rest: string, tail: string)
    requires t != [] && i <= |s| && s[i..] == t + rest + tail
    ensures i + |t| <= |s| && s[i] == t[0]
    ensures s[i..] == t + (rest + tail)
    ensures s[i + |t|..] == rest + tail
  {
    assert t + rest + tail == t + (rest + tail);
    Inside(s, i, t, rest + tail);
    HeadAt(s, i, t, rest + tail);
  }

  /** Where each of a run of values starts when their texts are laid out one after another from i, and where the run ends. */
  ghost function Starts(i: nat, items: seq<BValue>): (ps: seq<nat>)
    ensures |ps| == |items| + 1 && ps[0] == i
    decreases items
  {
    if items == [] then [i] else [i] + Starts(i + |Text(items[0])|, items[1..])
  }

  /**
   * Element k of a run whose elements start at ps: not an `e`, and stepped
   * over by the skip routine up to the start of the next one, with the fuel
   * the scanning loop has left after k turns.
   */
  ghost predicate ElementAt(s: string, ps: seq<nat>, fuel: nat, k: nat)
    requires k + 1 < |ps|
  {
    && ps[k] < ps[k + 1] <= |s| && s[ps[k]] != 'e' && fuel >= k + 1
    && SkipElement(s, ps[k], fuel - k - 1) == Outcome.Ok(ps[k + 1] - 1)
  }

  /** A run of elements, one after another, each stepped over by the skip routine. */
  ghost predicate Chain(s: string, ps: seq<nat>, fuel: nat) {
    forall k :: 0 <= k < |ps| - 1 ==> ElementAt(s, ps, fuel, k)
  }

  lemma ChainTail(s: string, ps: seq<nat>, fuel: nat)
    requires Chain(s, ps, fuel) && |ps| > 1 && fuel >= 1
    ensures Chain(s, ps[1..], fuel - 1)
  {
    var qs, f := ps[1..], fuel - 1;
    forall k | 0 <= k < |qs| - 1 ensures ElementAt(s, qs, f, k) {
      assert ElementAt(s, ps, fuel, k + 1);
    }
  }

  /** The scanning loop over a run of elements: it goes on at the end of the run, one turn per element. */
  lemma {:induction false} ScanChain(s: string, ps: seq<nat>, fuel: nat, j: nat, rest: nat)
    requires Chain(s, ps, fuel) && |s| <= IntMax && ps != []
    requires j == ps[|ps| - 1] && rest + |ps| - 1 == fuel
    ensures Scan(s, ps[0], fuel) == Scan(s, j, rest)
    decreases |ps|
  {
    if |ps| > 1 {
      assert ElementAt(s, ps, fuel, 0);
      ScanStep(s, ps[0], ps[1], fuel);
      ChainTail(s, ps, fuel);
      ScanChain(s, ps[1..], fuel - 1, j, rest);
    }
  }

  /** Value k of a run starts where the texts of the values from k on begin, and at least k characters in. */
  lemma StartsAt(i: nat, items: seq<BValue>, k: nat)
    requires k <= |items|
    ensures Starts(i, items)[k] + |ItemsText(items[k..])| == i + |ItemsText(items)|
    ensures |ItemsText(items)| >= |ItemsText(items[k..])| + k
  {
    StartsOffset(i, items, k);
    SuffixTextLength(items, k);
  }

  lemma {:induction false} StartsOffset(i: nat, items: seq<BValue>, k: nat)
    requires k <= |items|
    ensures Starts(i, items)[k] + |ItemsText(items[k..])| == i + |ItemsText(items)|
    decreases k
  {
    if k == 0 {
      assert items[0..] == items;
      assert Starts(i, items)[0] == i;
    } else {
      var w := StartsCons(i, items, k);
      StartsOffset(i + w, items[1..], k - 1);
      assert items[1..][k - 1..] == items[k..];
    }
  }

  /** The first value's text is w characters long, and value k starts where value k - 1 of the others does, counted from i + w. */
  lemma StartsCons(i: nat, items: seq<BValue>, k: nat) returns (w: nat)
    requires 1 <= k <= |items|
    ensures Starts(i, items)[k] == Starts(i + w, items[1..])[k - 1]
    ensures |ItemsText(items)| == w + |ItemsText(items[1..])|
  {
    w := |Text(items[0])|;
    assert Starts(i, items) == [i] + Starts(i + w, items[1..]);
  }

  lemma {:induction false} SuffixTextLength(items: seq<BValue>, k: nat)
    requires k <= |items|
    ensures |ItemsText(items)| >= |ItemsText(items[k..])| + k
    decreases k
  {
    if k == 0 {
      assert items[0..] == items;
    } else {
      assert |ItemsText(items)| == |Text(items[0])| + |ItemsText(items[1..])|;
      assert |Text(items[0])| >= 1 by { TextHead(items[0]); }
      SuffixTextLength(items[1..], k - 1);
      assert items[1..][k - 1..] == items[k..];
    }
  }

  /** From where value k starts, the text holds the texts of the values from k on. */
  lemma SuffixAt(s: string, i: nat, items: seq<BValue>, tail: string, k: nat)
    requires AllWellFormed(items) && k <= |items|
    requires i <= |s| && s[i..] == ItemsText(items) + tail
    ensures Starts(i, items)[k] <= |s| && s[Starts(i, items)[k]..] == ItemsText(items[k..]) + tail
    ensures AllWellFormed(items[k..])
  {
    var x := TextPrefix(items, k);
    StartsOffset(i, items, k);
    assert s[i..] == x + (ItemsText(items[k..]) + tail);
    Inside(s, i, x, ItemsText(items[k..]) + tail);
    assert forall j :: 0 <= j < |items| - k ==> items[k..][j] == items[k + j];
  }

  /** The texts of the values before k come first in the text of a run. */
  lemma {:induction false} TextPrefix(items: seq<BValue>, k: nat) returns (x: string)
    requires k <= |items|
    ensures ItemsText(items) == x + ItemsText(items[k..])
    decreases k
  {
    if k == 0 {
      assert items[0..] == items;
      x := [];
    } else {
      var x' := TextPrefix(items[1..], k - 1);
      assert items[1..][k - 1..] == items[k..];
      x := Text(items[0]) + x';
    }
  }

  /** A value whose text starts at element k of a run, and runs up to the next one, is that element. */
  lemma ElementOf(s: string, ps: seq<nat>, fuel: nat, k: nat, v: BValue, rest: string)
    requires WellFormed(v) && |s| <= IntMax && k + 1 < |ps|
    requires ps[k] <= |s| && s[ps[k]..] == Text(v) + rest && ps[k + 1] == ps[k] + |Text(v)|
    requires fuel >= k + 1 + |Text(v)|
    ensures ElementAt(s, ps, fuel, k)
    decreases |Text(v)|, 5
  {
    TextHead(v);
    HeadAt(s, ps[k], Text(v), rest);
    Inside(s, ps[k], Text(v), rest);
    SkipEncoded(s, ps[k], v, rest, fuel - k - 1);
  }

  /** Value k of a run laid out from i is an element of the run the skip routine sees. */
  lemma ItemElement(s: string, i: nat, items: seq<BValue>, tail: string, fuel: nat, k: nat)
    requires AllWellFormed(items) && |s| <= IntMax
    requires i <= |s| && s[i..] == ItemsText(items) + tail
    requires fuel >= |ItemsText(items)| + 1 && k < |items|
    ensures ElementAt(s, Starts(i, items), fuel, k)
    decreases |ItemsText(items)| + 1, 1
  {
    var ps := Starts(i, items);
    StartsAt(i, items, k);
    StartsAt(i, items, k + 1);
    SuffixAt(s, i, items, tail, k);
    ItemAt(s, ps[k], items[k..], tail);
    assert items[k..][0] == items[k] && items[k..][1..] == items[k + 1..];
    ElementOf(s, ps, fuel, k, items[k], ItemsText(items[k + 1..]) + tail);
  }

  /** The texts of a run of well-formed values, laid out from i, form a run of elements for the skip routine. */
  lemma ItemsChain(s: string, i: nat, items: seq<BValue>, tail: string, fuel: nat)
    requires AllWellFormed(items) && |s| <= IntMax
    requires i <= |s| && s[i..] == ItemsText(items) + tail
    requires fuel >= |ItemsText(items)| + 1
    ensures Chain(s, Starts(i, items), fuel)
    ensures Starts(i, items)[|items|] == i + |ItemsText(items)| && |items| <= |ItemsText(items)|
    decreases |ItemsText(items)| + 1, 2
  {
    forall k | 0 <= k < |items| ensures ElementAt(s, Starts(i, items), fuel, k) {
      ItemElement(s, i, items, tail, fuel, k);
    }
    StartsAt(i, items, |items|);
    assert items[|items|..] == [];
  }

  /** The scanning loop over a run of values and a closing `e`: it stops on that `e`. */
  lemma ScanItems(s: string, i: nat, items: seq<BValue>, q: string, fuel: nat)
    requires AllWellFormed(items) && |s| <= IntMax
    requires i <= |s| && s[i..] == ItemsText(items) + ("e" + q)
    requires fuel >= |ItemsText(items)| + 1
    ensures Scan(s, i, fuel) == Outcome.Ok(i + |ItemsText(items)|)
    decreases |ItemsText(items)| + 1, 3
  {
    var end, ps := i + |ItemsText(items)|, Starts(i, items);
    ItemsChain(s, i, items, "e" + q, fuel);
    Inside(s, i, ItemsText(items), "e" + q);
    HeadAt(s, end, "e", q);
    ScanChain(s, ps, fuel, end, fuel - |items|);
    ScanAtE(s, end, fuel - |items|);
    assert Scan(s, i, fuel) == Scan(s, end, fuel - |items|);
  }

  /** A list whose text stops before its closing `e`: the scan runs off the end and gives -1. */
  lemma UnclosedList(s: string, i: nat, items: seq<BValue>, fuel: nat)
    requires AllWellFormed(items) && |s| <= IntMax
    requires i <= |s| && s[i..] == "l" + ItemsText(items)
    requires fuel >= |ItemsText(items)| + 1
    ensures FindEnd(s, i, ListType, fuel) == Outcome.Ok(-1)
  {
    HeadAt(s, i, "l", ItemsText(items));
    Inside(s, i, "l", ItemsText(items));
    AppendNil(ItemsText(items));
    ItemsChain(s, i + 1, items, [], fuel);
    Inside(s, i + 1, ItemsText(items), []);
    ScanChain(s, Starts(i + 1, items), fuel, i + 1 + |ItemsText(items)|, fuel - |items|);
    ScanAtEnd(s, i + 1 + |ItemsText(items)|, fuel - |items|);
  }

  /**
   * A list holding an unclosed list never ends: the inner search gives -1,
   * the loop's `i++` turns that into 0, and the outer scan restarts at its
   * own opening `l`, which starts the same search again. Whatever the fuel,
   * it runs out; the source recurses until the stack overflows.
   */
  lemma {:induction false} NestedUnclosedList(fuel: nat)
    ensures FindEnd("ll", 0, ListType, fuel) == Outcome.Err(OutOfFuel)
    decreases fuel
  {
    var s := "ll";
    if fuel >= 1 {
      assert FindEnd(s, 1, ListType, fuel - 1) == Outcome.Ok(-1);
      assert Scan(s, 1, fuel) == Scan(s, 0, fuel - 1);
      if fuel >= 2 {
        NestedUnclosedList(fuel - 2);
        assert SkipElement(s, 0, fuel - 2) == Outcome.Err(OutOfFuel);
      }
    }
  }

  // ---------------------------------------------------------------- the whole decoder

  lemma StepEncoded(s: string, i: nat, v: BValue, q: string, fuel: nat)
    requires WellFormed(v) && |s| <= IntMax
    requires i <= |s| && s[i..] == Text(v) + q
    requires fuel >= |Text(v)|
    ensures i < |s|
    ensures Step(s, i, fuel) == Outcome.Ok((ToLegacy(v), i + |Text(v)|))
    decreases |Text(v)|, 3
  {
    if v.BInt? {
      StepIntValue(s, i, v, q, fuel);
    } else if v.BStr? {
      StepStrValue(s, i, v, q, fuel);
    } else if v.BList? {
      StepListValue(s, i, v, q, fuel);
    } else {
      StepDictValue(s, i, v, q, fuel);
    }
  }

  lemma StepIntValue(s: string, i: nat, v: BValue, q: string, fuel: nat)
    requires v.BInt? && WellFormed(v)
    requires i <= |s| && s[i..] == Text(v) + q
    ensures i < |s| && Step(s, i, fuel) == Outcome.Ok((LLong(v.n), i + |Text(v)|))
  {
    var n := v.n;
    assert v == BInt(n);
    var e := IntegerDigitsAt(s, i, n, q);
    StepInteger(s, i, e, n, fuel);
    assert e + 1 == i + |Text(v)|;
  }

  lemma StepStrValue(s: string, i: nat, v: BValue, q: string, fuel: nat)
    requires v.BStr? && WellFormed(v)
    requires i <= |s| && s[i..] == Text(v) + q
    ensures i < |s| && Step(s, i, fuel) == Outcome.Ok((ToLegacy(v), i + |Text(v)|))
  {
    var d := LengthDigits(v.bytes);
    StepString(s, i, d, Latin1(v.bytes), q, fuel);
  }

  lemma StepListValue(s: string, i: nat, v: BValue, q: string, fuel: nat)
    requires v.BList? && WellFormed(v) && |s| <= IntMax
    requires i <= |s| && s[i..] == Text(v) + q
    requires fuel >= |Text(v)|
    ensures i < |s| && Step(s, i, fuel) == Outcome.Ok((ToLegacy(v), i + |Text(v)|))
    decreases |Text(v)|, 2
  {
    Regroup3("l", ItemsText(v.items), "e", q);
    StepListText(s, i, v.items, q, fuel);
  }

  lemma StepDictValue(s: string, i: nat, v: BValue, q: string, fuel: nat)
    requires v.BDict? && WellFormed(v) && |s| <= IntMax
    requires i <= |s| && s[i..] == Text(v) + q
    requires fuel >= |Text(v)|
    ensures i < |s| && Step(s, i, fuel) == Outcome.Ok((ToLegacy(v), i + |Text(v)|))
    decreases |Text(v)|, 2
  {
    TextDict(v.entries);
    FlattenWellFormed(v.entries);
    Regroup3("d", ItemsText(Flatten(v.entries)), "e", q);
    StepDictText(s, i, v.entries, q, fuel);
  }

  /** The list branch: the text up to the matching `e` decodes, as a list, to the items' objects. */
  lemma StepListText(s: string, i: nat, items: seq<BValue>, q: string, fuel: nat)
    requires AllWellFormed(items) && |s| <= IntMax
    requires i <= |s| && s[i..] == "l" + (ItemsText(items) + ("e" + q))
    requires fuel >= |ItemsText(items)| + 1
    ensures i < |s|
    ensures Step(s, i, fuel) == Outcome.Ok((LList(ToLegacyItems(items)), i + |ItemsText(items)| + 2))
    decreases |ItemsText(items)| + 2, 1
  {
    ContentsAt(s, i, ListType, items, q, fuel);
    DecodeAll(items, fuel);
    ListAtContents(s, i, fuel, ItemsText(items), LList(ToLegacyItems(items)),
      i + |ItemsText(items)| + 1, i + |ItemsText(items)| + 2);
  }

  /** The dictionary branch: the contents decode as a list, then pair up into a map. */
  lemma StepDictText(s: string, i: nat, es: seq<Entry<BValue>>, q: string, fuel: nat)
    requires AllWellFormed(Flatten(es)) && |s| <= IntMax
    requires i <= |s| && s[i..] == "d" + (ItemsText(Flatten(es)) + ("e" + q))
    requires fuel >= |ItemsText(Flatten(es))| + 1
    ensures i < |s|
    ensures Step(s, i, fuel) == Outcome.Ok((LMap(LegacyEntries(es)), i + |ItemsText(Flatten(es))| + 2))
    decreases |ItemsText(Flatten(es))| + 2, 1
  {
    var w := DictContents(s, i, Flatten(es), q, fuel);
    PairsIntoEmpty(es);
    DictAtContents(s, i, fuel, w, ToLegacyItems(Flatten(es)), LegacyEntries(es), i + |w| + 1, i + |w| + 2);
  }

  /** Pairing up a dictionary's flattened contents into an empty map gives the dictionary's map. */
  lemma PairsIntoEmpty(es: seq<Entry<BValue>>)
    ensures PutPairs(ToLegacyItems(Flatten(es)), map[]) == Outcome.Ok(LegacyEntries(es))
  {
    PairsOfFlatten(es, map[]);
    UnionEmpty(LegacyEntries(es));
  }

  /** The contents of a dictionary's text: where they end, and the list they decode to. */
  lemma DictContents(s: string, i: nat, items: seq<BValue>, q: string, fuel: nat) returns (w: string)
    requires AllWellFormed(items) && |s| <= IntMax
    requires i <= |s| && s[i..] == "d" + (ItemsText(items) + ("e" + q))
    requires fuel >= |ItemsText(items)| + 1
    ensures w == ItemsText(items)
    ensures i < |s| && s[i] == 'd' && i + |w| + 1 <= |s| && s[i + 1..i + |w| + 1] == w
    ensures FindEnd(s, i, DictionaryType, fuel) == Outcome.Ok(i + |w| + 1)
    ensures LegacyDecode(w, true, fuel) == Outcome.Ok(LList(ToLegacyItems(items)))
    decreases |ItemsText(items)| + 1, 6
  {
    w := ItemsText(items);
    ContentsAt(s, i, DictionaryType, items, q, fuel);
    DecodeAll(items, fuel);
  }

  /** Where a list or dictionary's contents sit, and the `e` that the scan finds after them. */
  lemma ContentsAt(s: string, i: nat, t: EncodedType, items: seq<BValue>, q: string, fuel: nat)
    requires t == ListType || t == DictionaryType
    requires AllWellFormed(items) && |s| <= IntMax
    requires i <= |s| && s[i..] == [Opener(t).value] + (ItemsText(items) + ("e" + q))
    requires fuel >= |ItemsText(items)| + 1
    ensures i < |s| && s[i] == Opener(t).value
    ensures FindEnd(s, i, t, fuel) == Outcome.Ok(i + |ItemsText(items)| + 1)
    ensures i + |ItemsText(items)| + 1 <= |s| && s[i + 1..i + |ItemsText(items)| + 1] == ItemsText(items)
  {
    FindEndItems(s, i, t, items, q, fuel);
    Inside(s, i, [Opener(t).value], ItemsText(items) + ("e" + q));
    Inside(s, i + 1, ItemsText(items), "e" + q);
  }

  /** The loop from the start of a run of values' texts collects their objects in order. */
  lemma {:induction false} DecodeItems(s: string, i: nat, items: seq<BValue>, decoded: seq<LValue>, fuel: nat)
    requires AllWellFormed(items) && |s| <= IntMax
    requires i <= |s| && s[i..] == ItemsText(items)
    requires fuel >= |ItemsText(items)|
    ensures DecodeFrom(s, i, decoded, fuel) == Outcome.Ok(decoded + ToLegacyItems(items))
    decreases |ItemsText(items)|, 4
  {
    if items == [] {
      assert ItemsText(items) == [];
      assert |s[i..]| == 0;
      assert decoded + ToLegacyItems(items) == decoded;
    } else {
      var t := Text(items[0]);
      StepEncoded(s, i, items[0], ItemsText(items[1..]), fuel);
      Inside(s, i, t, ItemsText(items[1..]));
      DecodeItems(s, i + |t|, items[1..], decoded + [ToLegacy(items[0])], fuel);
      assert decoded + [ToLegacy(items[0])] + ToLegacyItems(items[1..]) == decoded + ToLegacyItems(items);
    }
  }

  /** A list's contents decode, as a list, to their objects. */
  lemma DecodeAll(items: seq<BValue>, fuel: nat)
    requires AllWellFormed(items) && |ItemsText(items)| <= IntMax
    requires fuel >= |ItemsText(items)|
    ensures LegacyDecode(ItemsText(items), true, fuel) == Outcome.Ok(LList(ToLegacyItems(items)))
    decreases |ItemsText(items)|, 5
  {
    assert ItemsText(items)[0..] == ItemsText(items);
    DecodeItems(ItemsText(items), 0, items, [], fuel);
    assert [] + ToLegacyItems(items) == ToLegacyItems(items);
  }

  /** A dictionary's flattened contents as objects: the first key as a `String`, its value's object, then the rest. */
  lemma LegacyFlattenCons(es: seq<Entry<BValue>>)
    requires es != []
    ensures ToLegacyItems(Flatten(es)) ==
      [LStr(Latin1(es[0].key)), ToLegacy(es[0].value)] + ToLegacyItems(Flatten(es[1..]))
  {
    var x := Flatten(es);
    FlattenCons(es);
    assert x[1..][1..] == Flatten(es[1..]);
  }

  /** One turn of the dictionary loop: a `String` key and the element after it. */
  lemma PutPairsStep(items: seq<LValue>, k: string, x: LValue, rest: seq<LValue>, m: map<string, LValue>)
    requires items == [LStr(k), x] + rest
    ensures PutPairs(items, m) == PutPairs(rest, m[k := x])
  {
    assert items[2..] == rest;
  }

  /** Alternating keys and values put into a map: each key to its value, a later key replacing an earlier one. */
  lemma {:induction false} PairsOfFlatten(es: seq<Entry<BValue>>, m: map<string, LValue>)
    ensures PutPairs(ToLegacyItems(Flatten(es)), m) == Outcome.Ok(m + LegacyEntries(es))
  {
    if es == [] {
      assert m + map[] == m;
    } else {
      var k := Latin1(es[0].key);
      var x := ToLegacy(es[0].value);
      var rest := ToLegacyItems(Flatten(es[1..]));
      LegacyFlattenCons(es);
      PutPairsStep(ToLegacyItems(Flatten(es)), k, x, rest, m);
      PairsOfFlatten(es[1..], m[k := x]);
      UpdateThenUnion(m, k, x, LegacyEntries(es[1..]));
    }
  }

  /**
   * `decodeBencode` inverts `bencode`: the text of a well-formed value
   * decodes to that value's object.
   */
  lemma LegacyRoundTrip(v: BValue, fuel: nat)
    requires WellFormed(v) && |Encode(v)| <= IntMax
    requires fuel >= |Encode(v)|
    ensures LegacyDecode(Latin1(Encode(v)), false, fuel) == Outcome.Ok(ToLegacy(v))
  {
    TextIsEncoding(v);
    var s := Text(v);
    assert ItemsText([v]) == s by {
      assert [v][1..] == [];
    }
    assert s[0..] == s;
    DecodeItems(s, 0, [v], [], fuel);
    assert [] + ToLegacyItems([v]) == [ToLegacy(v)];
  }

  /** More than one value at top level comes back as the list of them, not unwrapped. */
  lemma SeveralValues(items: seq<BValue>, fuel: nat)
    requires |items| > 1 && AllWellFormed(items) && |ItemsText(items)| <= IntMax
    requires fuel >= |ItemsText(items)|
    ensures LegacyDecode(ItemsText(items), false, fuel) == Outcome.Ok(LList(ToLegacyItems(items)))
  {
    assert ItemsText(items)[0..] == ItemsText(items);
    DecodeItems(ItemsText(items), 0, items, [], fuel);
    assert [] + ToLegacyItems(items) == ToLegacyItems(items);
  }

  /** `le` is the empty list and `de` the empty map: boundary instances of `LegacyRoundTrip`. */
  lemma EmptyContainers(fuel: nat)
    requires fuel >= 2
    ensures LegacyDecode("le", false, fuel) == Outcome.Ok(LList([]))
    ensures LegacyDecode("de", false, fuel) == Outcome.Ok(LMap(map[]))
  {
    assert Text(BList([])) == "le";
    assert Text(BDict([])) == "de";
    TextIsEncoding(BList([]));
    TextIsEncoding(BDict([]));
    LegacyRoundTrip(BList([]), fuel);
    LegacyRoundTrip(BDict([]), fuel);
  }

  // ---------------------------------------------------------------- the dictionary loop

  /** One more key/value pair at the end is one more `put`, applied last. */
  lemma {:induction false} PutPairsSnoc(items: seq<LValue>, m: map<string, LValue>, k: string, x: LValue)
    requires PutPairs(items, m).Ok?
    ensures PutPairs(items + [LStr(k), x], m) == Outcome.Ok(PutPairs(items, m).value[k := x])
    decreases |items|
  {
    if items == [] {
      assert [] + [LStr(k), x] == [LStr(k), x];
      assert [LStr(k), x][2..] == [];
    } else {
      assert (items + [LStr(k), x])[2..] == items[2..] + [LStr(k), x];
      PutPairsSnoc(items[2..], m[items[0].text := items[1]], k, x);
    }
  }

  /** A key given twice keeps the value given last. */
  lemma LaterDuplicateWins(items: seq<LValue>, k: string, first: LValue, last: LValue)
    requires PutPairs(items, map[]).Ok?
    ensures var r := PutPairs(items + [LStr(k), first, LStr(k), last], map[]);
      r.Ok? && k in r.value && r.value[k] == last
  {
    PutPairsSnoc(items, map[], k, first);
    PutPairsSnoc(items + [LStr(k), first], map[], k, last);
    assert items + [LStr(k), first] + [LStr(k), last] == items + [LStr(k), first, LStr(k), last];
  }

  /**
   * Every key is cast to `String`: after any pairs that were put, a key that is
   * not a `String` is a failed cast, however the list goes on.
   */
  lemma {:induction false} NonStringKey(items: seq<LValue>, x: LValue, rest: seq<LValue>, m: map<string, LValue>)
    requires PutPairs(items, m).Ok? && !x.LStr?
    ensures PutPairs(items + [x] + rest, m) == Outcome.Err(ClassCast)
    decreases |items|
  {
    if items == [] {
      assert [] + [x] + rest == [x] + rest;
    } else {
      assert (items + [x] + rest)[2..] == items[2..] + [x] + rest;
      NonStringKey(items[2..], x, rest, m[items[0].text := items[1]]);
    }
  }

  /** An odd number of elements leaves the last key without a value: `get(i + 1)` is out of bounds. */
  lemma {:induction false} MissingValue(items: seq<LValue>, m: map<string, LValue>, k: string)
    requires PutPairs(items, m).Ok?
    ensures PutPairs(items + [LStr(k)], m) == Outcome.Err(IndexOutOfBounds)
    decreases |items|
  {
    if items == [] {
      assert [] + [LStr(k)] == [LStr(k)];
    } else {
      assert (items + [LStr(k)])[2..] == items[2..] + [LStr(k)];
      MissingValue(items[2..], m[items[0].text := items[1]], k);
    }
  }
}
