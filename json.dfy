/**
 * The JSON values a record dictionary holds, and typed reads of one key with the
 * semantics of Python's `data[key]` (a missing key raises) and `data.get(key, default)`.
 */
module Json {
  import opened Wrappers

  datatype Value =
    | Null
    | Bool(b: bool)
    | Int(i: int)
    | Num(r: real)
    | Str(s: string)
    | List(elems: seq<Value>)

  /** A record dictionary as written to and read from the JSON files. */
  type Object = map<string, Value>

  /** Why a `from_dict` raised: `data[key]` on a missing key, or a value of the wrong JSON kind. */
  datatype DecodeError = MissingKey(key: string) | WrongType(key: string)

  /** `data[key]` for an integer field. */
  function GetInt(d: Object, key: string): (r: Result<int, DecodeError>)
    ensures r.Success? <==> key in d && d[key].Int?
    ensures r.Success? ==> d[key] == Int(r.value)
    ensures key !in d ==> r == Failure(MissingKey(key))
  {
    if key !in d then Failure(MissingKey(key))
    else if d[key].Int? then Success(d[key].i)
    else Failure(WrongType(key))
  }

  /** `data[key]` for a string field. */
  function GetStr(d: Object, key: string): (r: Result<string, DecodeError>)
    ensures r.Success? <==> key in d && d[key].Str?
    ensures r.Success? ==> d[key] == Str(r.value)
    ensures key !in d ==> r == Failure(MissingKey(key))
  {
    if key !in d then Failure(MissingKey(key))
    else if d[key].Str? then Success(d[key].s)
    else Failure(WrongType(key))
  }

  /** `data[key]` for a number field: Python accepts an int or a float where a float is expected. */
  function GetNum(d: Object, key: string): (r: Result<real, DecodeError>)
    ensures r.Success? <==> key in d && (d[key].Num? || d[key].Int?)
    ensures key in d && d[key].Num? ==> r == Success(d[key].r)
    ensures key in d && d[key].Int? ==> r == Success(d[key].i as real)
  {
    if key !in d then Failure(MissingKey(key))
    else if d[key].Num? then Success(d[key].r)
    else if d[key].Int? then Success(d[key].i as real)
    else Failure(WrongType(key))
  }

  /** `data.get(key, default)` for a number field. */
  function GetNumOr(d: Object, key: string, default: real): (r: Result<real, DecodeError>)
    ensures key !in d ==> r == Success(default)
    ensures key in d ==> r == GetNum(d, key)
  {
    if key !in d then Success(default) else GetNum(d, key)
  }

  /** `data.get(key, default)` for a boolean field. */
  function GetBoolOr(d: Object, key: string, default: bool): (r: Result<bool, DecodeError>)
    ensures key !in d ==> r == Success(default)
    ensures key in d ==> (r.Success? <==> d[key].Bool?)
    ensures key in d && d[key].Bool? ==> r == Success(d[key].b)
  {
    if key !in d then Success(default)
    else if d[key].Bool? then Success(d[key].b)
    else Failure(WrongType(key))
  }

  /** `data.get(key, default)` for a string field. */
  function GetStrOr(d: Object, key: string, default: string): (r: Result<string, DecodeError>)
    ensures key !in d ==> r == Success(default)
    ensures key in d ==> (r.Success? <==> d[key].Str?)
    ensures key in d && d[key].Str? ==> r == Success(d[key].s)
  {
    if key !in d then Success(default)
    else if d[key].Str? then Success(d[key].s)
    else Failure(WrongType(key))
  }

  /** `data.get(key)` for a nullable integer field: a missing key and `null` both read as `None`. */
  function GetOptInt(d: Object, key: string): (r: Result<Option<int>, DecodeError>)
    ensures key !in d ==> r == Success(None)
    ensures key in d && d[key] == Null ==> r == Success(None)
    ensures key in d && d[key].Int? ==> r == Success(Some(d[key].i))
    ensures r.Failure? <==> key in d && !d[key].Null? && !d[key].Int?
  {
    if key !in d then Success(None)
    else if d[key].Null? then Success(None)
    else if d[key].Int? then Success(Some(d[key].i))
    else Failure(WrongType(key))
  }

  /** A nullable integer written back as JSON. */
  function OptIntValue(o: Option<int>): (v: Value)
    ensures o.None? <==> v == Null
    ensures o.Some? ==> v == Int(o.value)
  {
    match o
    case None => Null
    case Some(i) => Int(i)
  }

  /** A list of integers written as a JSON array. */
  function IntList(xs: seq<int>): (v: Value)
    ensures v.List? && |v.elems| == |xs|
    ensures forall k :: 0 <= k < |xs| ==> v.elems[k] == Int(xs[k])
  {
    List(seq(|xs|, k requires 0 <= k < |xs| => Int(xs[k])))
  }

  /** Reads back a JSON array whose every element is an integer. */
  function DecodeInts(vs: seq<Value>): (r: Option<seq<int>>)
    ensures r.Some? ==> |r.value| == |vs|
  {
    if vs == [] then Some([])
    else if !vs[0].Int? then None
    else match DecodeInts(vs[1..])
      case None => None
      case Some(rest) => Some([vs[0].i] + rest)
  }

  /** Decoding an encoded integer list gives the list back. */
  lemma {:induction false} DecodeIntList(xs: seq<int>)
    ensures DecodeInts(IntList(xs).elems) == Some(xs)
  {
    if xs != [] {
      assert IntList(xs).elems[1..] == IntList(xs[1..]).elems;
      DecodeIntList(xs[1..]);
      assert [xs[0]] + xs[1..] == xs;
    }
  }

  /** `data.get(key, [])` for a list of integers. */
  function GetIntsOr(d: Object, key: string, default: seq<int>): (r: Result<seq<int>, DecodeError>)
    ensures key !in d ==> r == Success(default)
    ensures key in d && !d[key].List? ==> r == Failure(WrongType(key))
  {
    if key !in d then Success(default)
    else if !d[key].List? then Failure(WrongType(key))
    else match DecodeInts(d[key].elems)
      case None => Failure(WrongType(key))
      case Some(xs) => Success(xs)
  }

  /** Reading a list written by `IntList` gives it back. */
  lemma GetIntsOrIntList(d: Object, key: string, xs: seq<int>, default: seq<int>)
    requires key in d && d[key] == IntList(xs)
    ensures GetIntsOr(d, key, default) == Success(xs)
  {
    DecodeIntList(xs);
  }
}
