/**
 * The Python values the report scripts handle (decoded JSON responses and
 * loaded YAML documents), the exceptions they can raise, and the few pieces
 * of Python's built-in behaviour the scripts rely on: subscripting, `dict.get`,
 * slicing with a stop index, iteration, and the insertion-ordered `dict` that a
 * comprehension builds.
 */
module Values {

  /** A decoded JSON or YAML value. Mapping keys are strings. */
  datatype Value =
    | Str(s: string)
    | Int(i: int)
    | Null
    | List(items: seq<Value>)
    | Dict(entries: map<string, Value>)

  /** The exceptions the modelled code can raise. */
  datatype PyError =
    | KeyError(key: Value)
    | IndexError
    | TypeError
    | AttributeError

  datatype Option<T> = None | Some(value: T)

  /** Either a value or the exception that was raised instead. */
  datatype Result<T> = Ok(value: T) | Err(error: PyError) {
    predicate IsFailure() { Err? }

    function PropagateFailure<U>(): Result<U>
      requires Err?
    {
      Err(error)
    }

    function Extract(): T
      requires Ok?
    {
      value
    }
  }

  function Min(a: int, b: int): int { if a <= b then a else b }

  function Max(a: int, b: int): int { if a <= b then b else a }

  /** `v[key]`: mapping lookup, or list and string indexing with Python's negative indices. */
  function GetItem(v: Value, key: Value): (r: Result<Value>)
    ensures v.Dict? && key.Str? ==>
              r == if key.s in v.entries then Ok(v.entries[key.s]) else Err(KeyError(key))
    ensures (v.Str? || v.Int? || v.Null?) && key.Str? ==> r == Err(TypeError)
    ensures v.List? && key.Int? && 0 <= key.i < |v.items| ==> r == Ok(v.items[key.i])
    ensures v.List? && key.Int? && (key.i >= |v.items| || key.i < -|v.items|) ==> r == Err(IndexError)
  {
    match v
    case Dict(m) =>
      if key.List? || key.Dict? then Err(TypeError)        // unhashable key
      else if key.Str? && key.s in m then Ok(m[key.s])
      else Err(KeyError(key))
    case List(xs) =>
      if !key.Int? then Err(TypeError)
      else if 0 <= key.i < |xs| then Ok(xs[key.i])
      else if -|xs| <= key.i < 0 then Ok(xs[|xs| + key.i])
      else Err(IndexError)
    case Str(s) =>
      if !key.Int? then Err(TypeError)
      else if 0 <= key.i < |s| then Ok(Str([s[key.i]]))
      else if -|s| <= key.i < 0 then Ok(Str([s[|s| + key.i]]))
      else Err(IndexError)
    case _ => Err(TypeError)                                // not subscriptable
  }

  /** `v.get(key)`: only a mapping has the method; an absent key yields None. */
  function MethodGet(v: Value, key: string): (r: Result<Value>)
    ensures r.Ok? <==> v.Dict?
    ensures v.Dict? && key in v.entries ==> r == Ok(v.entries[key])
    ensures v.Dict? && key !in v.entries ==> r == Ok(Null)
  {
    if v.Dict? then Ok(if key in v.entries then v.entries[key] else Null)
    else Err(AttributeError)
  }

  /** The stop position that `xs[:stop]` uses on a sequence of length `len`. */
  function StopIndex(stop: Value, len: nat): (k: nat)
    requires stop.Int? || stop.Null?
    ensures k <= len
    ensures stop.Null? ==> k == len
    ensures stop.Int? && stop.i >= 0 ==> k == Min(len, stop.i)
    ensures stop.Int? && stop.i < 0 ==> k == Max(0, len + stop.i)
  {
    if stop.Null? then len
    else if stop.i >= 0 then Min(len, stop.i)
    else Max(0, len + stop.i)
  }

  /** `v[:stop]`: a list or string cut at the stop position; anything else raises. */
  function SliceTo(v: Value, stop: Value): (r: Result<Value>)
    ensures r.Ok? <==> (v.List? || v.Str?) && (stop.Int? || stop.Null?)
    ensures r.Ok? && v.List? ==>
              r.value.List? && r.value.items == v.items[..StopIndex(stop, |v.items|)]
    ensures r.Ok? && v.Str? ==>
              r.value.Str? && r.value.s == v.s[..StopIndex(stop, |v.s|)]
  {
    if !(stop.Int? || stop.Null?) then Err(TypeError)
    else match v
      case List(xs) => Ok(List(xs[..StopIndex(stop, |xs|)]))
      case Str(s) => Ok(Str(s[..StopIndex(stop, |s|)]))
      case _ => Err(TypeError)
  }

  /** The elements `for item in v` visits: a list's items, or a string's one-character strings. */
  function Iterate(v: Value): (xs: seq<Value>)
    requires v.List? || v.Str?
    ensures v.List? ==> xs == v.items
    ensures v.Str? ==> |xs| == |v.s| && forall k :: 0 <= k < |xs| ==> xs[k] == Str([v.s[k]])
  {
    if v.List? then v.items else seq(|v.s|, k requires 0 <= k < |v.s| => Str([v.s[k]]))
  }

  /** A `dict` with the order in which its keys were first inserted. */
  type Record = seq<(string, Value)>

  /** The keys of `d`, in insertion order. */
  function Keys(d: Record): seq<string>
  {
    seq(|d|, i requires 0 <= i < |d| => d[i].0)
  }

  /** `d.get(k)` on an ordered dict: the value of the first entry with key `k`. */
  function Lookup(d: Record, k: string): Option<Value>
  {
    if d == [] then None
    else if d[0].0 == k then Some(d[0].1)
    else Lookup(d[1..], k)
  }

  /** `d[k] = v`: an existing key keeps its position and takes the new value; a new key goes last. */
  function SetItem(d: Record, k: string, v: Value): Record
  {
    if d == [] then [(k, v)]
    else if d[0].0 == k then [(k, v)] + d[1..]
    else [d[0]] + SetItem(d[1..], k, v)
  }

  /** Assigning a key appends it to the keys exactly when it was not there yet. */
  lemma {:induction false} SetItemKeys(d: Record, k: string, v: Value)
    ensures Keys(SetItem(d, k, v)) == if k in Keys(d) then Keys(d) else Keys(d) + [k]
  {
    if d != [] {
      assert Keys(d) == [d[0].0] + Keys(d[1..]);
      if d[0].0 != k {
        SetItemKeys(d[1..], k, v);
        assert Keys(SetItem(d, k, v)) == [d[0].0] + Keys(SetItem(d[1..], k, v));
      } else {
        assert Keys(SetItem(d, k, v)) == [k] + Keys(d[1..]);
      }
    }
  }

  /** Every entry after `d[k] = v` is an old entry or the new pair. */
  lemma {:induction false} SetItemEntries(d: Record, k: string, v: Value)
    ensures forall i :: 0 <= i < |SetItem(d, k, v)| ==> SetItem(d, k, v)[i] in d || SetItem(d, k, v)[i] == (k, v)
  {
    if d != [] && d[0].0 != k {
      SetItemEntries(d[1..], k, v);
      var r := SetItem(d, k, v);
      forall i | 0 <= i < |r| ensures r[i] in d || r[i] == (k, v) {
        if i > 0 {
          assert r[i] == SetItem(d[1..], k, v)[i - 1];
        }
      }
    }
  }
}
