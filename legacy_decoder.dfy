/**
 * The older decoder of `Main.java`, which works on a `String` with index
 * bookkeeping instead of a stream: `decodeBencode(String, boolean)` walks
 * the text value by value, and `findCorrespondingEnd` finds the `e` that
 * closes a list or dictionary by skipping over the elements inside it.
 *
 * Each piece of the source is modelled twice: a function that says what it
 * computes (`FindEnd`, `Scan`, `Step`, `DecodeFrom`, `LegacyDecode`,
 * `PutPairs`) and a method with the source's loops proved to compute
 * exactly that. `findCorrespondingEnd` can jump back to index 0 (an
 * `indexOf` that finds nothing yields -1, and the loop's `i++` turns it into
 * 0), so it need not terminate; both models carry a `fuel` bound that
 * every loop iteration and nested call spends, and report `OutOfFuel` when
 * it is used up.
 */
module LegacyDecoder {
  import opened JavaLang

  /** What the decoder builds: `String`, `Long`, `ArrayList<Object>` and `HashMap<String, Object>`. */
  datatype LValue =
    | LStr(text: string)
    | LLong(n: int)
    | LList(items: seq<LValue>)
    | LMap(entries: map<string, LValue>)

  /** The runtime exceptions that escape the decoder (the `decode` command prints their message). */
  datatype LegacyError =
    | NumberFormat      // Integer.parseInt or Long.parseLong refused the text
    | IndexOutOfBounds  // charAt, substring or List.get outside the bounds
    | ClassCast         // a dictionary key that is not a String
    | NoSuchElement     // getFirst() when nothing was decoded
    | NullPointer       // typeMap has no opening character for STRING
    | Unsupported       // "Only strings are supported at the moment"
    | OutOfFuel         // the fuel bound ran out (no Java counterpart)

  datatype Outcome<T> = Ok(value: T) | Err(error: LegacyError)

  /** `EncodedType`. */
  datatype EncodedType = StringType | IntegerType | ListType | DictionaryType

  /** `typeMap`: the character that opens each type; STRING has no entry. */
  function Opener(t: EncodedType): (c: Option<char>)
    ensures c.None? <==> t == StringType
  {
    match t
    case StringType => None
    case IntegerType => Some('i')
    case ListType => Some('l')
    case DictionaryType => Some('d')
  }

  // ---------------------------------------------------------------- findCorrespondingEnd

  /**
   * The index the colon search settles on: the first `:` at or after
   * `from`, or `from` itself (the search's initial value) when there is none.
   */
  function FirstColon(s: string, from: nat): (c: nat)
    ensures from <= c
    ensures c == from || (c < |s| && s[c] == ':')
    ensures forall j :: from <= j < c ==> s[j] != ':'
  {
    var k := IndexOf(s, ':', from);
    if k < 0 then from else k
  }

  /**
   * Where skipping a byte string that starts at i lands: the colon's index
   * plus the length written before it, in `int` arithmetic. That is the
   * index of the string's last character.
   */
  function StringEnd(s: string, i: nat): Outcome<int>
    requires i < |s|
  {
    var colon := FirstColon(s, i);
    match ParseInt(s[i..colon])
    case None => Err(NumberFormat)
    case Some(length) => Ok(Int32(colon + length))
  }

  /**
   * `findCorrespondingEnd(s, start, t)`: for a list or dictionary opening at
   * `start`, the index of its closing `e`; -1 when `start` does not hold the
   * type's opening character or the text ends first.
   */
  function FindEnd(s: string, start: int, t: EncodedType, fuel: nat): (r: Outcome<int>)
    ensures t != StringType && r.Ok? ==> -1 <= r.value < |s|
    decreases fuel, 2
  {
    if t == StringType && !(0 <= start < |s|) then Err(IndexOutOfBounds)
    else if t == StringType && IsDigit(s[start]) then StringEnd(s, start)
    else if Opener(t).None? then Err(NullPointer)
    else if !(0 <= start < |s|) then Err(IndexOutOfBounds)
    else if s[start] != Opener(t).value then Ok(-1)
    else if t == IntegerType then Ok(IndexOf(s, 'e', start))
    else Scan(s, start + 1, fuel)
  }

  /**
   * The scanning loop of `findCorrespondingEnd` from index i: an `e` ends
   * it; any other element is skipped and the scan goes on after it; -1 once
   * i reaches the end of the text.
   */
  function Scan(s: string, i: int, fuel: nat): (r: Outcome<int>)
    ensures r.Ok? ==> -1 <= r.value < |s|
    decreases fuel, 1
  {
    if i >= |s| then Ok(-1)
    else if fuel == 0 then Err(OutOfFuel)
    else if i < 0 then Err(IndexOutOfBounds)
    else if s[i] == 'e' then Ok(i)
    else
      match SkipElement(s, i, fuel - 1)
      case Err(e) => Err(e)
      case Ok(j) => Scan(s, Int32(j + 1), fuel - 1)
  }

  /**
   * Where the loop body moves i: to the `e` of an integer, the last
   * character of a byte string, the closing `e` of a nested list or
   * dictionary, or nowhere for any other character.
   */
  function SkipElement(s: string, i: nat, fuel: nat): Outcome<int>
    requires i < |s|
    decreases fuel, 3
  {
    if s[i] == 'i' then Ok(IndexOf(s, 'e', i))
    else if IsDigit(s[i]) then StringEnd(s, i)
    else if s[i] == 'l' then FindEnd(s, i, ListType, fuel)
    else if s[i] == 'd' then FindEnd(s, i, DictionaryType, fuel)
    else Ok(i)
  }

  // ---------------------------------------------------------------- decodeBencode

  /**
   * One iteration of `decodeBencode`'s loop at `start`: the value found
   * there and the index after it. The branch is chosen by the character at
   * `start`.
   */
  function Step(s: string, start: nat, fuel: nat): (r: Outcome<(LValue, nat)>)
    requires start < |s|
    ensures r.Ok? ==> start < r.value.1 <= |s|
    decreases |s|, 1
  {
    var c := s[start];
    if IsDigit(c) then StringAt(s, start)
    else if c == 'i' then IntegerAt(s, start)
    else if c == 'l' then ListAt(s, start, fuel)
    else if c == 'd' then DictAt(s, start, fuel)
    else Err(Unsupported)
  }

  /** The digit branch: the length before the first `:`, then that many characters after it. */
  function StringAt(s: string, start: nat): (r: Outcome<(LValue, nat)>)
    requires start < |s| && IsDigit(s[start])
    ensures r.Ok? ==> start < r.value.1 <= |s|
  {
    var colon := FirstColon(s, start);
    match ParseInt(s[start..colon])
    case None => Err(NumberFormat)
    case Some(length) =>
      assert s[start..colon][0] == s[start];
      var end := colon + 1 + length;
      if end > |s| then Err(IndexOutOfBounds)
      else Ok((LStr(s[colon + 1..end]), end))
  }

  /** The `i` branch: `Long.parseLong` of the text up to the next `e`. */
  function IntegerAt(s: string, start: nat): (r: Outcome<(LValue, nat)>)
    requires start < |s| && s[start] == 'i'
    ensures r.Ok? ==> start < r.value.1 <= |s|
  {
    var end := IndexOf(s, 'e', start);
    if end < 0 then Err(IndexOutOfBounds)
    else
      match ParseLong(s[start + 1..end])
      case None => Err(NumberFormat)
      case Some(n) => Ok((LLong(n), end + 1))
  }

  /** The `l` branch: the text up to the matching `e`, decoded as a list; `le` is the empty list. */
  function ListAt(s: string, start: nat, fuel: nat): (r: Outcome<(LValue, nat)>)
    requires start < |s|
    ensures r.Ok? ==> start < r.value.1 <= |s|
    decreases |s|, 0
  {
    match FindEnd(s, start, ListType, fuel)
    case Err(e) => Err(e)
    case Ok(end) =>
      if end < start + 1 then Err(IndexOutOfBounds)
      else
        var encodedList := s[start + 1..end];
        if encodedList != [] then
          match LegacyDecode(encodedList, true, fuel)
          case Err(e) => Err(e)
          case Ok(v) => Ok((v, end + 1))
        else Ok((LList([]), end + 1))
  }

  /**
   * The `d` branch: the text up to the matching `e`, decoded as a list
   * whose elements pair up into a map; `de` is the empty map.
   */
  function DictAt(s: string, start: nat, fuel: nat): (r: Outcome<(LValue, nat)>)
    requires start < |s|
    ensures r.Ok? ==> start < r.value.1 <= |s|
    decreases |s|, 0
  {
    match FindEnd(s, start, DictionaryType, fuel)
    case Err(e) => Err(e)
    case Ok(end) =>
      if end < start + 1 then Err(IndexOutOfBounds)
      else
        var encodedList := s[start + 1..end];
        match LegacyDecode(encodedList, true, fuel)
        case Err(e) => Err(e)
        case Ok(decodedList) =>
          var built := if encodedList != [] then PutPairs(decodedList.items, map[]) else Ok(map[]);
          match built
          case Err(e) => Err(e)
          case Ok(m) => Ok((LMap(m), end + 1))
  }

  /** The loop of `decodeBencode` from `start`, with `decoded` already collected. */
  function DecodeFrom(s: string, start: nat, decoded: seq<LValue>, fuel: nat): Outcome<seq<LValue>>
    requires start <= |s|
    decreases |s|, 2, |s| - start
  {
    if start == |s| then Ok(decoded)
    else
      match Step(s, start, fuel)
      case Err(e) => Err(e)
      case Ok(p) => DecodeFrom(s, p.1, decoded + [p.0], fuel)
  }

  /**
   * `decodeBencode(s, isProcessingList)`: every value of s in order, as a
   * list when there is more than one or when decoding a list's contents,
   * otherwise the single value itself.
   */
  function LegacyDecode(s: string, isList: bool, fuel: nat): (r: Outcome<LValue>)
    ensures isList && r.Ok? ==> r.value.LList?
    decreases |s|, 3
  {
    match DecodeFrom(s, 0, [], fuel)
    case Err(e) => Err(e)
    case Ok(decoded) =>
      if |decoded| > 1 || isList then Ok(LList(decoded))
      else if decoded == [] then Err(NoSuchElement)
      else Ok(decoded[0])
  }

  /** The dictionary loop: `put` each key (cast to `String`) with the element after it, into m. */
  function PutPairs(items: seq<LValue>, m: map<string, LValue>): Outcome<map<string, LValue>>
  {
    if items == [] then Ok(m)
    else if !items[0].LStr? then Err(ClassCast)
    else if |items| < 2 then Err(IndexOutOfBounds)
    else PutPairs(items[2..], m[items[0].text := items[1]])
  }

  // ---------------------------------------------------------------- the methods

  /** The `for` loop that looks for the first `:` from `start`. */
  method FindFirstColon(s: string, start: nat) returns (colon: nat)
    requires start <= |s|
    ensures colon == FirstColon(s, start)
  {
    colon := start;
    var j := start;
    while j < |s|
      invariant start <= j <= |s|
      invariant forall k :: start <= k < j ==> s[k] != ':'
    {
      if s[j] == ':' {
        IndexOfFrom(s, ':', start, j);
        return j;
      }
      j := j + 1;
    }
  }

  /** The byte-string branch of `findCorrespondingEnd`, which its loop repeats. */
  method SkipString(s: string, i: nat) returns (r: Outcome<int>)
    requires i < |s|
    ensures r == StringEnd(s, i)
  {
    var colon := FindFirstColon(s, i);
    var length := ParseInt(s[i..colon]);
    if length.None? {
      return Err(NumberFormat);
    }
    r := Ok(Int32(colon + length.value));
  }

  /** `findCorrespondingEnd(s, startIndex, type)`. */
  method FindCorrespondingEnd(s: string, start: int, t: EncodedType, fuel: nat) returns (r: Outcome<int>)
    ensures r == FindEnd(s, start, t, fuel)
    decreases fuel, 2
  {
    if t == StringType {
      if !(0 <= start < |s|) {
        return Err(IndexOutOfBounds);
      }
      if IsDigit(s[start]) {
        r := SkipString(s, start);
        return;
      }
    }
    var opener := Opener(t);
    if opener.None? {
      return Err(NullPointer);
    }
    if !(0 <= start < |s|) {
      return Err(IndexOutOfBounds);
    }
    if s[start] != opener.value {
      return Ok(-1);
    }
    if t == IntegerType {
      return Ok(IndexOf(s, 'e', start));
    }
    var i := start + 1;
    var f: nat := fuel;
    while i < |s|
      invariant f <= fuel
      invariant Scan(s, i, f) == Scan(s, start + 1, fuel)
      decreases f
    {
      if f == 0 {
        return Err(OutOfFuel);
      }
      if i < 0 {
        return Err(IndexOutOfBounds);
      }
      if s[i] == 'e' {
        return Ok(i);
      }
      var next: Outcome<int>;
      if s[i] == 'i' {
        next := Ok(IndexOf(s, 'e', i));
      } else if IsDigit(s[i]) {
        next := SkipString(s, i);
      } else if s[i] == 'l' {
        next := FindCorrespondingEnd(s, i, ListType, f - 1);
      } else if s[i] == 'd' {
        next := FindCorrespondingEnd(s, i, DictionaryType, f - 1);
      } else {
        next := Ok(i);
      }
      if next.Err? {
        return Err(next.error);
      }
      i := Int32(next.value + 1);
      f := f - 1;
    }
    r := Ok(-1);
  }

  /** The dictionary branch's `for (i = 0; i < size; i += 2) map.put(...)` loop. */
  method BuildMap(decodedList: seq<LValue>) returns (r: Outcome<map<string, LValue>>)
    ensures r == PutPairs(decodedList, map[])
  {
    var m: map<string, LValue> := map[];
    var i := 0;
    while i < |decodedList|
      invariant 0 <= i <= |decodedList|
      invariant PutPairs(decodedList[i..], m) == PutPairs(decodedList, map[])
    {
      if !decodedList[i].LStr? {
        return Err(ClassCast);
      }
      if i + 1 >= |decodedList| {
        return Err(IndexOutOfBounds);
      }
      assert decodedList[i..][2..] == decodedList[i + 2..];
      m := m[decodedList[i].text := decodedList[i + 1]];
      i := i + 2;
    }
    return Ok(m);
  }

  /** The body of `decodeBencode`'s loop: decode the value at `startIndex`. */
  method DecodeElement(s: string, startIndex: nat, fuel: nat) returns (r: Outcome<(LValue, nat)>)
    requires startIndex < |s|
    ensures r == Step(s, startIndex, fuel)
    decreases |s|, 1
  {
    var c := s[startIndex];
    if IsDigit(c) {
      var colon := FindFirstColon(s, startIndex);
      var length := ParseInt(s[startIndex..colon]);
      if length.None? {
        return Err(NumberFormat);
      }
      assert s[startIndex..colon][0] == c;
      var end := colon + 1 + length.value;
      if end > |s| {
        return Err(IndexOutOfBounds);
      }
      return Ok((LStr(s[colon + 1..end]), end));
    } else if c == 'i' {
      var end := IndexOf(s, 'e', startIndex);
      if end < 0 {
        return Err(IndexOutOfBounds);
      }
      var n := ParseLong(s[startIndex + 1..end]);
      if n.None? {
        return Err(NumberFormat);
      }
      return Ok((LLong(n.value), end + 1));
    } else if c == 'l' {
      var end := FindCorrespondingEnd(s, startIndex, ListType, fuel);
      if end.Err? {
        return Err(end.error);
      }
      if end.value < startIndex + 1 {
        return Err(IndexOutOfBounds);
      }
      var encodedList := s[startIndex + 1..end.value];
      if encodedList != [] {
        var inner := DecodeText(encodedList, true, fuel);
        if inner.Err? {
          return Err(inner.error);
        }
        return Ok((inner.value, end.value + 1));
      }
      return Ok((LList([]), end.value + 1));
    } else if c == 'd' {
      var end := FindCorrespondingEnd(s, startIndex, DictionaryType, fuel);
      if end.Err? {
        return Err(end.error);
      }
      if end.value < startIndex + 1 {
        return Err(IndexOutOfBounds);
      }
      var encodedList := s[startIndex + 1..end.value];
      var decodedList := DecodeText(encodedList, true, fuel);
      if decodedList.Err? {
        return Err(decodedList.error);
      }
      var m: map<string, LValue> := map[];
      if encodedList != [] {
        var built := BuildMap(decodedList.value.items);
        if built.Err? {
          return Err(built.error);
        }
        m := built.value;
      }
      return Ok((LMap(m), end.value + 1));
    } else {
      return Err(Unsupported);
    }
  }

  /** `decodeBencode(s, isProcessingList)`. */
  method DecodeText(s: string, isList: bool, fuel: nat) returns (r: Outcome<LValue>)
    ensures r == LegacyDecode(s, isList, fuel)
    decreases |s|, 3
  {
    var startIndex := 0;
    var decoded: seq<LValue> := [];
    while startIndex < |s|
      invariant startIndex <= |s|
      invariant DecodeFrom(s, startIndex, decoded, fuel) == DecodeFrom(s, 0, [], fuel)
      decreases |s| - startIndex
    {
      var element := DecodeElement(s, startIndex, fuel);
      if element.Err? {
        return Err(element.error);
      }
      decoded := decoded + [element.value.0];
      startIndex := element.value.1;
    }
    if |decoded| > 1 || isList {
      return Ok(LList(decoded));
    }
    if decoded == [] {
      return Err(NoSuchElement);
    }
    return Ok(decoded[0]);
  }

  /** `decodeBencode(s)`: the entry point the `decode` command calls. */
  method Decode(s: string, fuel: nat) returns (r: Outcome<LValue>)
    ensures r == LegacyDecode(s, false, fuel)
  {
    r := DecodeText(s, false, fuel);
  }
}
