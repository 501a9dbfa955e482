# Bencode codec, legacy string decoder and info hash, in Dafny

This project models the core of a small BitTorrent client written in Java:

- **The stream codec of `Bencode.java`.** `decodeBencode` reads one value from a `PushbackInputStream` and dispatches on its first byte: `i` for an integer, `l` for a list, `d` for a dictionary, a digit for a length-prefixed byte string. `bencode` writes a tree back to an `OutputStream`.
  - The stream is a class (`BencodeStream.PushbackStream`) over a byte array, with a cursor and a one-byte pushback buffer. The output stream is a class (`BencodeStream.ByteSink`).
  - Each decoder method is proved to agree with a specification function on the unread bytes (`BencodeFormat.ParseValue` and its helpers). The encoder method is proved to write `BencodeFormat.Encode(v)`.
  - Decoded dictionaries are `TreeMap`s, modelled as entry lists in ascending key order (module `TreeMap`, whose `Put` is `TreeMap.put`).
  - Round trips are proved both ways:
    - decoding `bencode(v) + rest` gives the normalised tree of `v` and leaves `rest`;
    - every decoded tree is canonical (its dictionaries are sorted);
    - so re-encoding a decoded tree and decoding it again gives the same tree.
- **The older decoder of `Main.java`.** `decodeBencode(String, boolean)` and `findCorrespondingEnd` work on a `String` by index arithmetic.
  - Each is modelled as a specification function (`LegacyDecoder.LegacyDecode`, `LegacyDecoder.FindEnd`) and as methods with the source's loops, proved equal to it.
  - `LegacyRoundTrip.LegacyRoundTrip` proves that the text of any well-formed tree decodes to the objects the decoder is meant to build.
- **The `info` command of `Main.java`.** It decodes a .torrent file, reads `announce` and `info.length`, re-encodes the `info` dictionary with `bencode`, and hashes it (module `TorrentInfo`).
  - Every failed cast or missing key ends the command with the Java exception thrown at that point.
  - For a canonically written file, the info hash is proved to be the SHA-1 of the file's own bytes of the `info` value.
- **Hexadecimal rendering (`Utils.java`, `HashingUtils.java`).** There are two styles:
  - the nibble table of `Utils.getHex`;
  - the `Integer.toHexString(0xFF & b)` loop with `0` padding in both `calculateSHA1` methods.
  
  Both loops are proved to build the same text, `HexFormat.Hex`. That text is proved to have two characters per byte, to use only lowercase digits, to read back to the unsigned bytes, and to distribute over concatenation.

Java's fixed-width types are explicit:
- a `byte` read from a stream is 0..255 (`JavaLang.byte`);
- a Java `byte` array element is -128..127 (`JavaLang.int8`);
- `0xFF & b`, `(byte) c`, `unread(-1)` and `int` wrap-around are written out (`Unsigned`, `Signed`, `ByteOf`, `Int32`).

SHA-1 is a parameter `sha1: seq<int8> -> seq<int8>`.

Where the code departs from the bencoding rules of BEP 3 (The BitTorrent Protocol Specification), the model follows the code:
- BEP 3 asks for dictionary keys in sorted order, but `bencode` writes a dictionary in the map's iteration order and does not sort it. Sorted output is proved only for trees the stream decoder built (`BencodeRoundTrip.ParsedCanonical`, `BencodeRoundTrip.ReencodeDecoded`).
- Decoding does not always terminate: see "Left out".
- BEP 3 forbids leading zeros and `-0`, but integer text is read by `Long.parseLong`, which accepts them, and a `+` sign too.
- Malformed input fails with whatever Java exception the code throws at that point; the model names each of them.
- At the end of input, a list or dictionary calls `unread(-1)`. That pushes back the byte `0xFF`, which `decodeBencode` then rejects as "Invalid bencode format".

## Model

| member | source | states |
|---|---|---|
| JavaLang.Int32 | src/main/java/Main.java:155 | `int` addition result: always in the `int` range, equal to the mathematical value when that fits, one turn of 2^32 less just above the range |
| JavaLang.Int32Wraps | src/main/java/Main.java:126 | the wrapped value differs from the mathematical one by whole turns of 2^32, and by none exactly when the value fits in an `int` |
| JavaLang.Unsigned | src/main/java/HashingUtils.java:13 | `0xFF & b` equals b modulo 256: b for non-negative bytes, b + 256 for negative ones |
| JavaLang.Signed | src/main/java/Main.java:52 | `toByteArray()` turns a written byte 0..255 into the Java byte with the same low eight bits, whose unsigned value is the byte written |
| JavaLang.ParseDecimal | src/main/java/Bencode.java:75 | `Long.parseLong` / `Integer.parseInt`: a result lies in the type's range, comes from non-empty text that is all digits or starts with a sign, and is non-negative when the text starts with a digit |
| JavaLang.ParseDigits | src/main/java/Bencode.java:85 | plain digits whose value fits in the range parse to that value |
| JavaLang.NatToString | src/main/java/Bencode.java:54 | `Integer.toString` of a length: at least one digit, all digits, no leading zero |
| JavaLang.NatToStringValue | src/main/java/Bencode.java:54 | the digits printed have the value printed |
| JavaLang.ParseToString | src/main/java/Bencode.java:69-76 | parsing `Long.toString(n)` gives back n for any n in range |
| JavaLang.ParseNatToString | src/main/java/Bencode.java:85 | `Integer.parseInt` reads back the length `Integer.toString` wrote |
| JavaLang.IndexOf | src/main/java/Main.java:80 | `indexOf(x, from)`: -1 or a position at or after `from` holding x, with no x between `from` and it |
| JavaLang.IndexOfFrom | src/main/java/Main.java:145 | the first x at or after `from` is the one `indexOf` finds |
| JavaLang.Latin1 | src/main/java/Bencode.java:73 | `(char) c` for each byte: one character per byte |
| JavaLang.AsciiBytes | src/main/java/Bencode.java:50 | `getBytes(US_ASCII)`: one byte per character |
| TreeMap.LessTransitive | src/main/java/Bencode.java:108 | the key order of the `TreeMap` is transitive |
| TreeMap.LessTotal | src/main/java/Bencode.java:108 | any two distinct keys are ordered one way or the other |
| TreeMap.AsMapAt | src/main/java/Bencode.java:108 | in a sorted entry list, each entry's value is what the map holds for its key |
| TreeMap.Put | src/main/java/Bencode.java:117 | `map.put(key, value)` keeps the keys strictly ascending, and the mapping afterwards is the old mapping updated at key |
| TreeMap.PutMembers | src/main/java/Bencode.java:117 | after a `put`, every entry is the new pair or was there before |
| TreeMap.PutLargest | src/main/java/Bencode.java:117 | putting a key above every present key appends it |
| TreeMap.PutAll | src/main/java/Bencode.java:109-118 | the `put` calls of the dictionary loop leave a sorted map |
| TreeMap.PutAllMap | src/main/java/Bencode.java:109-118 | after the `put` calls, the map holds each key put, with the last value put for it |
| TreeMap.SortedUnique | src/main/java/Bencode.java:108 | two `TreeMap`s with the same mapping iterate identically |
| TreeMap.PutAllOrderIndependent | src/main/java/Bencode.java:107-120 | the same pairs put in any order give the same `TreeMap` |
| TreeMap.PutAllOfSorted | src/main/java/Bencode.java:107-120 | putting a `TreeMap`'s entries, in its own order, into an empty one rebuilds it |
| BencodeFormat.ParseValue | src/main/java/Bencode.java:16-29 | a successful decode consumes at least one byte and leaves a suffix of the input unread |
| BencodeFormat.ParseInteger | src/main/java/Bencode.java:69-76 | a decoded integer consumes at least one byte and leaves a suffix of the input unread |
| BencodeFormat.ParseString | src/main/java/Bencode.java:78-92 | a decoded byte string leaves a suffix of the input unread |
| BencodeFormat.ParseList | src/main/java/Bencode.java:94-105 | a decoded list consumes at least one byte and leaves a suffix of the input unread |
| BencodeFormat.ParseDict | src/main/java/Bencode.java:107-120 | a decoded dictionary consumes at least one byte and leaves a suffix of the input unread |
| BencodeStream.PushbackStream.constructor | src/main/java/Main.java:43 | the stream over the file's bytes will return exactly those bytes |
| BencodeStream.PushbackStream.Read | src/main/java/Bencode.java:17 | `read()` returns the next byte and drops it from the unread bytes; it returns -1 at the end and changes nothing |
| BencodeStream.PushbackStream.Unread | src/main/java/Bencode.java:101 | `unread(c)` puts the low byte of c in front of the unread bytes |
| BencodeStream.PushbackStream.ReadInto | src/main/java/Bencode.java:87 | `read(b)` copies min(b.length, available) bytes into b and returns that count; it returns 0 for an empty b and -1 when nothing is left |
| BencodeStream.ByteOf | src/main/java/Bencode.java:101 | `(byte) c`: c itself for 0..255, 0xFF for -1 |
| BencodeStream.DecodeBencode | src/main/java/Bencode.java:16-29 | the value read, and the bytes left unread, are those `ParseValue` gives for the bytes unread before; or the same error |
| BencodeStream.DecodeInteger | src/main/java/Bencode.java:69-76 | agrees with `ParseInteger` on the unread bytes: value, bytes left, or error |
| BencodeStream.ReadUntil | src/main/java/Bencode.java:70-74 | the characters of the bytes before the first `stop`, with that `stop` consumed; `None` when no `stop` remains |
| BencodeStream.DecodeString | src/main/java/Bencode.java:78-92 | agrees with `ParseString` on the unread bytes |
| BencodeStream.DecodeList | src/main/java/Bencode.java:94-105 | agrees with `ParseList` on the unread bytes |
| BencodeStream.DecodeDictionary | src/main/java/Bencode.java:107-120 | agrees with `ParseDict` on the unread bytes |
| BencodeStream.ByteSink.Write | src/main/java/Bencode.java:34 | `write` appends its bytes to what the stream holds |
| BencodeStream.Bencode | src/main/java/Bencode.java:31-67 | `bencode(v, out)` appends exactly `Encode(v)` to what `out` holds |
| BencodeStream.WriteItems | src/main/java/Bencode.java:43-45 | the list loop appends each item's encoding, in order |
| BencodeStream.WriteEntries | src/main/java/Bencode.java:35-38 | the dictionary loop appends each key as a byte string, then its value, in iteration order |
| BencodeStream.WriteByteString | src/main/java/Bencode.java:52-57 | a byte string is written as its length's digits, `:`, then the bytes |
| BencodeRoundTrip.EncodeHead | src/main/java/Bencode.java:31-67 | every encoding is non-empty and never starts with `e`; its first byte is `i`, `l`, `d` or a digit exactly for an integer, list, dictionary or byte string |
| BencodeRoundTrip.IntRoundTrip | src/main/java/Bencode.java:69-76 | `i`, the decimal text of n, `e` decodes to n and leaves what follows |
| BencodeRoundTrip.StrRoundTrip | src/main/java/Bencode.java:78-92 | length, `:`, bytes decodes to exactly those bytes and leaves what follows |
| BencodeRoundTrip.RoundTrip | src/main/java/Bencode.java:16-29 | decoding `bencode(v)` followed by anything gives the normalised tree of v and leaves exactly what followed |
| BencodeRoundTrip.ListRoundTrip | src/main/java/Bencode.java:94-105 | a list's encoding decodes to the list of its items' normal forms |
| BencodeRoundTrip.DictRoundTrip | src/main/java/Bencode.java:107-120 | a dictionary's encoding decodes to the `TreeMap` built by putting its normalised entries in order |
| BencodeRoundTrip.ItemsRoundTrip | src/main/java/Bencode.java:96-103 | the list loop reads the items back in input order and consumes the closing `e` |
| BencodeRoundTrip.ItemsStep | src/main/java/Bencode.java:97-102 | one turn of the list loop decodes the first item and appends it |
| BencodeRoundTrip.EntriesRoundTrip | src/main/java/Bencode.java:109-118 | the dictionary loop puts each pair it reads back, in encoding order, and consumes the closing `e` |
| BencodeRoundTrip.EntriesStep | src/main/java/Bencode.java:110-117 | one turn of the dictionary loop decodes a key and a value and puts them, whatever follows the entries |
| BencodeRoundTrip.NormalizeCanonical | src/main/java/Bencode.java:108 | a tree whose dictionaries are sorted is its own normal form |
| BencodeRoundTrip.DecodeOfEncode | src/main/java/Bencode.java:16-29 | decoding the encoding of a canonical tree gives the same tree and consumes the whole encoding |
| BencodeRoundTrip.ParsedCanonical | src/main/java/Bencode.java:108 | every decoded tree is canonical: each dictionary in ascending key order |
| BencodeRoundTrip.PutKeepsCanonical | src/main/java/Bencode.java:117 | putting a canonical value into a canonical `TreeMap` keeps it canonical |
| BencodeRoundTrip.ReencodeDecoded | src/main/java/Bencode.java:31-39 | the bytes `bencode` writes for a decoded tree decode back to that tree and are used up |
| BencodeCases.InvalidLeadingByte | src/main/java/Bencode.java:17-28 | a first byte other than `i`, `l`, `d` or a digit, or no byte at all, is "Invalid bencode format" |
| BencodeCases.ShortString | src/main/java/Bencode.java:86-90 | a length prefix promising more bytes than remain is "Invalid string length" |
| BencodeCases.EmptyString | src/main/java/Bencode.java:78-92 | `0:` is the empty byte string and leaves what follows |
| BencodeCases.EmptyContainers | src/main/java/Bencode.java:94-105 | `le` is the empty list and `de` the empty dictionary, each consuming its `e` |
| BencodeCases.NonStringKey | src/main/java/Bencode.java:114-117 | every key is cast: after any run of well-formed entries, a key that is not a byte string fails the cast to `byte[]` |
| BencodeCases.KeyCastFails | src/main/java/Bencode.java:109-118 | the dictionary loop, from any sorted map, puts the well-formed entries and then fails on the key that is not a byte string |
| BencodeCases.IntegerTexts | src/main/java/Bencode.java:47-51 | 0 encodes as `i0e` and -5 as `i-5e` |
| BencodeCases.NormalizedMapping | src/main/java/Bencode.java:116-117 | the normalised entries map each key to the normal form of its last value |
| BencodeCases.LastEntryWins | src/main/java/Bencode.java:117 | the value of the last entry with a key is what the mapping holds |
| BencodeCases.DecodedDictionary | src/main/java/Bencode.java:107-120 | a dictionary encoding decodes to a sorted `TreeMap` whose keys are those written, each with its last value, with nothing left |
| BencodeCases.RepeatedKeyLastWins | src/main/java/Bencode.java:114-117 | a repeated key keeps the value of its last occurrence |
| BencodeCases.SameMappingSameDecoding | src/main/java/Bencode.java:108 | dictionaries with the same keys and values decode identically, whatever order they were written in |
| HexFormat.DigitValue16 | src/main/java/Utils.java:6 | a lowercase hex digit's value is below 16 and indexes that digit in `HEXES` |
| HexFormat.DigitOfValue | src/main/java/Utils.java:6 | each entry of `HEXES` is a hex digit whose value is its index |
| HexFormat.HexAt | src/main/java/Utils.java:11-13 | the text has length 2n; character 2k is the digit of byte k's high nibble and 2k+1 that of its low nibble |
| HexFormat.HexAlphabet | src/main/java/Utils.java:12 | every character is one of `0123456789abcdef` |
| HexFormat.HexAppend | src/main/java/Utils.java:11-13 | the text of a concatenation is the concatenation of the texts |
| HexFormat.PairValue | src/main/java/Utils.java:12 | a byte's two digits read back as that byte |
| HexFormat.ReadHexOfHex | src/main/java/Utils.java:12 | reading the text two digits at a time gives back the unsigned bytes |
| HexFormat.HexOfReadHex | src/main/java/Utils.java:12 | a text that reads back as some bytes is the text of those bytes |
| HexFormat.ToHexStringValue | src/main/java/HashingUtils.java:13 | `toHexString` writes hex digits that read back as the number, with a leading `0` only for 0 |
| HexFormat.ToHexStringOfByte | src/main/java/HashingUtils.java:13-16 | `toHexString` of a byte is one digit below 16 and the two nibble digits from 16 on |
| HexFormat.PaddedIsPair | src/main/java/HashingUtils.java:13-17 | the padded `toHexString` of `0xFF & b` is the pair of nibble digits, starting with `0` below 16 |
| HexFormat.NegativeByte | src/main/java/HashingUtils.java:13 | a negative byte renders as two digits from `80` to `ff`, without sign extension |
| HexFormat.Nibbles | src/main/java/Utils.java:12 | `(b & 0xf0) >> 4` and `b & 0x0f` on the sign-extended byte are the nibbles of its unsigned value |
| HexFormat.GetHex | src/main/java/Utils.java:9-15 | `getHex(raw)` returns `Hex(raw)` |
| HexFormat.FormatDigest | src/main/java/HashingUtils.java:11-19 | the padded `toHexString(0xFF & b)` loop (the same in `Utils.calculateSHA1`, lines 27-35) returns `Hex(digest)`, the same text as `getHex` |
| HexFormat.CalculateSha1 | src/main/java/HashingUtils.java:6-20 | `calculateSHA1(input)` (in `HashingUtils` and in `Utils`) is the hex text of the digest of the input |
| HexFormat.DigestText | src/main/java/HashingUtils.java:12-19 | a 20-byte digest gives 40 lowercase hex characters |
| LegacyDecoder.Opener | src/main/java/Main.java:19-25 | `typeMap` has an opening character for every type except STRING |
| LegacyDecoder.FirstColon | src/main/java/Main.java:68-74 | the colon search settles on the first `:` at or after the start, or on the start when there is none |
| LegacyDecoder.FindEnd | src/main/java/Main.java:115-166 | for a list or dictionary, the result is -1 or an index inside the text |
| LegacyDecoder.Scan | src/main/java/Main.java:140-164 | the scanning loop ends at -1 or at an index inside the text |
| LegacyDecoder.Step | src/main/java/Main.java:66-107 | one loop turn that succeeds moves the index forward, at most to the end of the text |
| LegacyDecoder.StringAt | src/main/java/Main.java:67-78 | the digit branch moves the index forward, at most to the end of the text |
| LegacyDecoder.IntegerAt | src/main/java/Main.java:79-83 | the integer branch moves the index forward, at most to the end of the text |
| LegacyDecoder.ListAt | src/main/java/Main.java:84-92 | the list branch moves the index forward, at most to the end of the text |
| LegacyDecoder.DictAt | src/main/java/Main.java:93-104 | the dictionary branch moves the index forward, at most to the end of the text |
| LegacyDecoder.LegacyDecode | src/main/java/Main.java:63-113 | decoding a list's contents always returns a list |
| LegacyDecoder.FindFirstColon | src/main/java/Main.java:68-74 | the `for` loop finds `FirstColon` |
| LegacyDecoder.SkipString | src/main/java/Main.java:146-155 | the byte-string branch of the skip loop lands at the colon's index plus the parsed length, in `int` arithmetic, and an unparsable length throws `NumberFormatException` |
| LegacyDecoder.FindCorrespondingEnd | src/main/java/Main.java:115-166 | the method, with its loop and recursive calls, computes `FindEnd` |
| LegacyDecoder.BuildMap | src/main/java/Main.java:97-102 | the `put` loop over alternating keys and values computes `PutPairs` |
| LegacyDecoder.DecodeElement | src/main/java/Main.java:67-107 | the loop body computes `Step` |
| LegacyDecoder.DecodeText | src/main/java/Main.java:63-113 | `decodeBencode(s, isProcessingList)` computes `LegacyDecode` |
| LegacyDecoder.Decode | src/main/java/Main.java:59-61 | `decodeBencode(s)` is `LegacyDecode` without the list flag |
| LegacyRoundTrip.TextIsEncoding | src/main/java/Bencode.java:31-67 | the text the legacy decoder reads is `bencode`'s output, one character per byte |
| LegacyRoundTrip.IntegerDigits | src/main/java/Main.java:79-81 | an integer's text is `i`, digits free of `e`, `e`, and the digits parse to the number |
| LegacyRoundTrip.LengthDigits | src/main/java/Main.java:75-76 | a byte string's text is digits, `:`, the characters, and the digits parse to the length |
| LegacyRoundTrip.StepString | src/main/java/Main.java:67-78 | the digit branch yields the next L characters and moves past them |
| LegacyRoundTrip.StepStringShort | src/main/java/Main.java:76 | with fewer than L characters left, `substring` is out of bounds |
| LegacyRoundTrip.StepInteger | src/main/java/Main.java:79-83 | the integer branch parses the text between `i` and the next `e` and moves past that `e` |
| LegacyRoundTrip.ListAtContents | src/main/java/Main.java:84-92 | the list branch decodes the contents before the matching `e` as a list and moves past the `e` |
| LegacyRoundTrip.DictAtContents | src/main/java/Main.java:93-104 | the dictionary branch decodes the contents as a list, pairs them into a map and moves past the `e` |
| LegacyRoundTrip.UnsupportedLeading | src/main/java/Main.java:105-106 | any other leading character fails with "Only strings are supported at the moment" |
| LegacyRoundTrip.SkipIntegerText | src/main/java/Main.java:144-145 | skipping an integer lands on its `e` |
| LegacyRoundTrip.SkipStringText | src/main/java/Main.java:146-155 | skipping a byte string lands on its last character |
| LegacyRoundTrip.SkipEncoded | src/main/java/Main.java:144-160 | skipping over the text of any well-formed value lands on its last character |
| LegacyRoundTrip.FindEndEncoded | src/main/java/Main.java:115-166 | `findCorrespondingEnd` on a list or dictionary returns the index of its own closing `e`, whatever surrounds it |
| LegacyRoundTrip.FindEndList | src/main/java/Main.java:130-164 | the same for a list |
| LegacyRoundTrip.FindEndDict | src/main/java/Main.java:130-164 | the same for a dictionary |
| LegacyRoundTrip.ScanStep | src/main/java/Main.java:140-161 | a loop turn over an element that is not `e` continues just after the element |
| LegacyRoundTrip.ScanAtEnd | src/main/java/Main.java:164 | at the end of the text the search returns -1 |
| LegacyRoundTrip.ScanAtE | src/main/java/Main.java:141-143 | on an `e` the search returns its index |
| LegacyRoundTrip.ScanChain | src/main/java/Main.java:140-162 | over a run of elements, the loop continues at the end of the run, one turn per element |
| LegacyRoundTrip.ItemsChain | src/main/java/Main.java:144-160 | the texts of well-formed values laid out one after another form such a run |
| LegacyRoundTrip.ScanItems | src/main/java/Main.java:140-162 | over a run of values and a closing `e`, the search stops on that `e` |
| LegacyRoundTrip.UnclosedList | src/main/java/Main.java:164 | a list whose text ends before its closing `e` gives -1 |
| LegacyRoundTrip.NestedUnclosedList | src/main/java/Main.java:144-157 | on `ll` the search never ends, whatever the fuel: -1 from the inner list turns into index 0 and restarts the outer scan |
| LegacyRoundTrip.StepEncoded | src/main/java/Main.java:66-107 | a loop turn on the text of a well-formed value yields that value's object and moves past its text |
| LegacyRoundTrip.StepListText | src/main/java/Main.java:84-92 | the list branch on a list's text yields the list of its items' objects |
| LegacyRoundTrip.StepDictText | src/main/java/Main.java:93-104 | the dictionary branch on a dictionary's text yields its map |
| LegacyRoundTrip.PairsIntoEmpty | src/main/java/Main.java:97-102 | pairing a dictionary's flattened contents into an empty map gives the dictionary's map |
| LegacyRoundTrip.PairsOfFlatten | src/main/java/Main.java:99-101 | alternating keys and values map each key to its value, a later key replacing an earlier one |
| LegacyRoundTrip.DecodeItems | src/main/java/Main.java:66-108 | the loop over a run of values collects their objects in order |
| LegacyRoundTrip.DecodeAll | src/main/java/Main.java:109-110 | a list's contents decode, as a list, to their objects |
| LegacyRoundTrip.LegacyRoundTrip | src/main/java/Main.java:63-113 | the text of any well-formed tree decodes to that tree's object |
| LegacyRoundTrip.SeveralValues | src/main/java/Main.java:109-110 | more than one value at top level comes back as the list of them |
| LegacyRoundTrip.EmptyContainers | src/main/java/Main.java:86-91 | `le` decodes to the empty list and `de` to the empty map |
| LegacyRoundTrip.PutPairsSnoc | src/main/java/Main.java:99-101 | one more key and value at the end is one more `put`, applied last |
| LegacyRoundTrip.LaterDuplicateWins | src/main/java/Main.java:100 | a key given twice keeps the value given last |
| LegacyRoundTrip.NonStringKey | src/main/java/Main.java:99-101 | every key is cast: after any pairs that were put, a key that is not a `String` fails the cast, whatever follows it |
| LegacyRoundTrip.MissingValue | src/main/java/Main.java:100 | an odd number of elements makes `get(i + 1)` go out of bounds |
| TorrentInfo.ToSigned | src/main/java/Main.java:52 | `toByteArray()` has one Java byte per byte written, each with the written byte as its unsigned value |
| TorrentInfo.RunInfo | src/main/java/Main.java:42-52 | the `info` command on the file's bytes gives `Info`: a decode error, `ClassCast` or `NullPointer` at the first failing cast or lookup (top level, `announce`, `info`, `length`), else the announce bytes, the length and the info hash |
| TorrentInfo.Summarize | src/main/java/Main.java:44-52 | the casts, lookups and hashing after the decode give `Summary` |
| TorrentInfo.HashInfo | src/main/java/Main.java:48-52 | the hash is the hex text of SHA-1 over exactly the bytes `bencode` writes for the decoded `info` value |
| TorrentInfo.CanonicalInfo | src/main/java/Main.java:43-44 | for a canonically encoded file, the command sees the tree that was encoded |
| TorrentInfo.ValueBytes | src/main/java/Bencode.java:35-38 | the value of each entry lies, as its own encoding, at a slice of the dictionary's encoding |
| TorrentInfo.InfoOfCanonical | src/main/java/Main.java:46-52 | for a canonically written file, the info hash is SHA-1 of the file's own bytes of the `info` value |
| TorrentInfo.InfoHashText | src/main/java/Main.java:52 | with a 20-byte digest, the printed info hash is 40 lowercase hex characters |

## Left out

- Command-line plumbing is not modelled: `main`'s dispatch, `Files.readAllBytes`, the printing and the Gson JSON output of the `decode` command (`Main.java` lines 27-57). The `info` command is modelled from the file's bytes to the three values it prints.
- SHA-1 is a parameter `sha1` of `CalculateSha1`, `Info` and `RunInfo`; `MessageDigest` and `Utils.calculateSHA1Raw` are not modelled. `InfoHashText` assumes the 20-byte digest length as a requirement.
- BencodeStream.ReadUntil: at the end of the stream, the source's loops in `decodeInteger` and in `decodeString`'s length prefix never end by themselves (`read()` returns -1 forever, and each turn appends `(char) -1` to the `StringBuilder`). The model stops with the `Unterminated` error instead; on a real JVM the loop ends in `OutOfMemoryError` once the builder reaches its limit.
- Dictionary keys are kept as bytes. The source turns each key into a `String` through UTF-8 and orders the `TreeMap` by `String.compareTo`. For ASCII keys both agree with the byte order used here, and the `info` command only looks up ASCII keys. Keys whose UTF-8 decoding is lossy, or that sort differently as UTF-16, are not modelled.
- The tracker URL is reported as its bytes, not as the `String` decoded from UTF-8.
- `bencode` of `Integer` and `String` objects, and the "Unsupported object type" exception, are not modelled. The model's trees hold only `Long`, `byte[]`, lists and maps. The `String` branch writes the string's bytes the way the `byte[]` branch does.
- `bencode` of the legacy decoder's `HashMap`s is not modelled. Their iteration order is unspecified, and sorted output is claimed only for `TreeMap`s from the stream decoder.
- Trees are well-formed only when every byte string and key has at most 2^31 - 1 bytes and every integer fits in a `long`. Nothing else can be decoded back.
- Legacy round-trip lemmas require the text to be at most 2^31 - 1 UTF-16 code units, the most a Java `String` can index.
- LegacyDecoder.FindEnd: `findCorrespondingEnd` can restart at index 0 and recurse without end. `NestedUnclosedList` shows this on `ll`. Every function and method of the legacy decoder therefore takes a `fuel` bound and reports `OutOfFuel` when it runs out. The Java program would overflow its stack instead. The round-trip lemmas require enough fuel, and give an amount that always suffices.
- LegacyDecoder: digits are ASCII only. Java's `Character.isDigit`, `Integer.parseInt` and `Long.parseLong` also accept other Unicode decimal digits (for example U+0661), and on text holding them the legacy model differs from the code: `1:a` written with U+0661 as its length is a string to Java but `Unsupported` to the model. The stream decoder is unaffected, since no Latin-1 character outside ASCII is a decimal digit.
- LegacyDecoder.Step: the legacy decoder's text is modelled as a sequence of Unicode scalar values, while Java's `length()`, `charAt` and `substring` count UTF-16 code units. Lengths and indices agree with Java only on text without supplementary characters (above U+FFFF). `2:` followed by U+1F600 is that emoji to Java but `IndexOutOfBounds` to the model, and lone surrogates, which a Java `String` may hold, cannot be represented. Text produced from `bencode` output, one character per byte, is not affected.
- Allocation failure is not modelled: the model describes a JVM with unlimited memory. `decodeString` allocates `new byte[length]` before it checks how many bytes remain, so a large length prefix (`2147483647:`, or lengths in the hundreds of millions under a default heap) throws `OutOfMemoryError`, where `BencodeCases.ShortString` and `ParseString` give "Invalid string length". The unterminated texts above likewise end in `OutOfMemoryError`, not `Unterminated`.
- BencodeCases.ShortString: holds on a JVM with unlimited memory; for a large n the source throws `OutOfMemoryError` at `new byte[length]` (line 86 of `Bencode.java`) before it reaches the length check.
