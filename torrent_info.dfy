/**
 * The `info` command: decode a .torrent file, take its tracker URL
 * (`announce`), the `length` of its `info` dictionary, and the SHA-1 of
 * that dictionary re-encoded with `bencode` as lowercase hexadecimal. Each
 * failed cast or missing key ends the command with the exception Java
 * throws there. SHA-1 itself is a parameter.
 */
module TorrentInfo {
  import opened JavaLang
  import opened TreeMap
  import opened BencodeFormat
  import opened BencodeRoundTrip
  import opened BencodeStream
  import opened HexFormat

  /** How the command ends without printing its report. */
  datatype InfoError =
      /** An exception from `Bencode.decodeBencode`. */
    | Decode(error: DecodeError)
      /** A value of another type than the cast expects: `(Map)`, `(byte[])` or `(long)`. */
    | ClassCast
      /** A missing key: `new String(null, …)`, `null.get(…)` or unboxing `null`. */
    | NullPointer

  /** The three lines the command prints: tracker URL (its bytes), length and info hash. */
  datatype Report = Report(announce: seq<byte>, length: int, infoHash: string)

  datatype InfoResult = Done(report: Report) | Failed(error: InfoError)

  /** `map.get(key)` on a decoded map, whose keys are the bytes of ASCII names. */
  function Get(es: seq<Entry<BValue>>, key: string): Option<BValue> {
    var k := AsciiBytes(key);
    if k in AsMap(es) then Some(AsMap(es)[k]) else None
  }

  /** `toByteArray()` of the stream `bencode` wrote to. */
  function ToSigned(bs: seq<byte>): (raw: seq<int8>)
    ensures |raw| == |bs|
    ensures forall k :: 0 <= k < |bs| ==> Unsigned(raw[k]) == bs[k]
  {
    seq(|bs|, k requires 0 <= k < |bs| => Signed(bs[k]))
  }

  /** The info hash: SHA-1 of the bytes `bencode` writes for the info dictionary, in hexadecimal. */
  function InfoHash(info: BValue, sha1: seq<int8> -> seq<int8>): string {
    Hex(sha1(ToSigned(Encode(info))))
  }

  /** What the `info` command does with the bytes of a .torrent file, in the order its statements fail. */
  function Info(torrent: seq<byte>, sha1: seq<int8> -> seq<int8>): InfoResult {
    match ParseValue(torrent)
    case Err(e) => Failed(Decode(e))
    case Ok(p) => Summary(p.value, sha1)
  }

  /** The casts and lookups on the decoded tree, then the info hash. */
  function Summary(torrentData: BValue, sha1: seq<int8> -> seq<int8>): InfoResult {
    if !torrentData.BDict? then Failed(ClassCast)
    else
      var top := torrentData.entries;
      match Get(top, "announce")
      case None => Failed(NullPointer)
      case Some(announce) =>
        if !announce.BStr? then Failed(ClassCast)
        else match Get(top, "info")
          case None => Failed(NullPointer)
          case Some(info) =>
            if !info.BDict? then Failed(ClassCast)
            else match Get(info.entries, "length")
              case None => Failed(NullPointer)
              case Some(length) =>
                if !length.BInt? then Failed(ClassCast)
                else Done(Report(announce.bytes, length.n, InfoHash(info, sha1)))
  }

  /** The `info` branch of `main`, on the file's bytes. */
  method RunInfo(torrentFile: array<byte>, sha1: seq<int8> -> seq<int8>) returns (r: InfoResult)
    ensures r == Info(torrentFile[..], sha1)
  {
    var input := new PushbackStream(torrentFile);
    var decoded := DecodeBencode(input);
    if decoded.Err? {
      r := Failed(Decode(decoded.error));
    } else {
      r := Summarize(decoded.value, sha1);
    }
  }

  /** The statements after `decodeBencode`: cast, look up, re-encode and hash. */
  method Summarize(torrentData: BValue, sha1: seq<int8> -> seq<int8>) returns (r: InfoResult)
    ensures r == Summary(torrentData, sha1)
  {
    if !torrentData.BDict? {
      return Failed(ClassCast);
    }
    var announce := Get(torrentData.entries, "announce");
    if announce == None {
      return Failed(NullPointer);
    } else if !announce.value.BStr? {
      return Failed(ClassCast);
    }
    var info := Get(torrentData.entries, "info");
    if info == None {
      return Failed(NullPointer);
    } else if !info.value.BDict? {
      return Failed(ClassCast);
    }
    var length := Get(info.value.entries, "length");
    if length == None {
      return Failed(NullPointer);
    } else if !length.value.BInt? {
      return Failed(ClassCast);
    }
    var hash := HashInfo(info.value, sha1);
    r := Done(Report(announce.value.bytes, length.value.n, hash));
  }

  /** `bencode(info, out)` into a fresh `ByteArrayOutputStream`, then `calculateSHA1(out.toByteArray())`. */
  method HashInfo(info: BValue, sha1: seq<int8> -> seq<int8>) returns (hash: string)
    ensures hash == InfoHash(info, sha1)
  {
    var out := new ByteSink();
    Bencode(info, out);
    var written := out.bytes;
    assert written == Encode(info) by {
      assert [] + Encode(info) == Encode(info);
    }
    var raw := new int8[|written|](k requires 0 <= k < |written| => Signed(written[k]));
    assert raw[..] == ToSigned(written);
    hash := CalculateSha1(sha1, raw);
  }

  // ---------------------------------------------------------------- properties

  /**
   * For a .torrent file written canonically (every dictionary in ascending
   * key order, as `bencode` of a decoded tree writes it), decoding keeps the
   * tree as it is, and the info hash is the SHA-1 of the file's own bytes
   * `start..end`: those of the value stored under `info`.
   */
  lemma InfoOfCanonical(top: seq<Entry<BValue>>, rest: seq<byte>, sha1: seq<int8> -> seq<int8>)
    returns (start: nat, end: nat)
    requires Canonical(BDict(top))
    requires Summary(BDict(top), sha1).Done?
    ensures var torrent := Encode(BDict(top)) + rest;
      && Info(torrent, sha1) == Summary(BDict(top), sha1)
      && start <= end <= |torrent|
      && AsciiBytes("info") in AsMap(top)
      && torrent[start..end] == Encode(AsMap(top)[AsciiBytes("info")])
      && Info(torrent, sha1).report.infoHash == Hex(sha1(ToSigned(torrent[start..end])))
  {
    CanonicalInfo(top, rest, sha1);
    var key := AsciiBytes("info");
    assert key in AsMap(top);
    var i :| 0 <= i < |top| && top[i].key == key;
    AsMapAt(top, i);
    start, end := ValueBytes(top, i, rest);
  }

  /** Decoding a canonical encoding gives back the tree, so the command sees the tree itself. */
  lemma CanonicalInfo(top: seq<Entry<BValue>>, rest: seq<byte>, sha1: seq<int8> -> seq<int8>)
    requires Canonical(BDict(top))
    ensures Info(Encode(BDict(top)) + rest, sha1) == Summary(BDict(top), sha1)
  {
    CanonicalWellFormed(BDict(top));
    RoundTrip(BDict(top), rest);
    NormalizeCanonical(BDict(top));
  }

  /** Where the value of entry i lies in the encoding of a dictionary. */
  lemma ValueBytes(top: seq<Entry<BValue>>, i: nat, rest: seq<byte>) returns (start: nat, end: nat)
    requires i < |top|
    ensures var s := Encode(BDict(top)) + rest;
      start <= end <= |s| && s[start..end] == Encode(top[i].value)
  {
    var key, v := top[i].key, top[i].value;
    assert top == top[..i + 1] + top[i + 1..];
    EncodeEntriesAppend(top[..i + 1], top[i + 1..]);
    EncodeEntriesSnoc(top, i);
    var entries := EncodeEntries(top);
    assert entries == EncodeEntries(top[..i]) + EncodeBytes(key) + Encode(v) + EncodeEntries(top[i + 1..]);
    var before := [AsciiD] + EncodeEntries(top[..i]) + EncodeBytes(key);
    var after := EncodeEntries(top[i + 1..]) + [AsciiE] + rest;
    Regroup5(AsciiD, EncodeEntries(top[..i]), EncodeBytes(key), Encode(v), EncodeEntries(top[i + 1..]), AsciiE, rest);
    assert Encode(BDict(top)) + rest == [AsciiD] + entries + [AsciiE] + rest;
    start, end := |before|, |before| + |Encode(v)|;
    SliceOfConcat(before, Encode(v), after);
  }

  lemma Regroup5<T>(open: T, p: seq<T>, k: seq<T>, v: seq<T>, q: seq<T>, close: T, r: seq<T>)
    ensures [open] + (p + k + v + q) + [close] + r == ([open] + p + k) + v + (q + [close] + r)
  {
  }

  lemma SliceOfConcat<T>(a: seq<T>, b: seq<T>, c: seq<T>)
    ensures (a + b + c)[|a|..|a| + |b|] == b
  {
  }

  /** With a SHA-1 that gives 20 bytes, the info hash printed is 40 lowercase hexadecimal digits. */
  lemma InfoHashText(torrent: seq<byte>, sha1: seq<int8> -> seq<int8>)
    requires forall x :: |sha1(x)| == 20
    requires Info(torrent, sha1).Done?
    ensures var h := Info(torrent, sha1).report.infoHash;
      |h| == 40 && forall i :: 0 <= i < 40 ==> h[i] in Hexes
  {
    var top := ParseValue(torrent).value.value.entries;
    var info := Get(top, "info").value;
    DigestText(sha1(ToSigned(Encode(info))));
  }
}
