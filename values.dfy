/** Values shared by every module: the scalars a decoded JSON message can hold,
    the Python exceptions the engine raises, and the result types that carry them. */
module Values {

  /** A value in a decoded message dict. `VFloat` is a finite float; `VOther` is `None`
      or a non-finite float, which equals no integer. Arrays and objects decode to lists
      and dicts; their contents never matter here, only that they cannot be dict keys. */
  datatype Value =
    | VInt(i: int)
    | VBool(b: bool)
    | VFloat(f: real)
    | VStr(s: string)
    | VOther
    | VList
    | VDict

  /** Why `validate_message` rejects a dict. */
  datatype Invalid = MissingKey(key: string) | TypeNotAllowed(mtype: Value)

  /** The exceptions the modelled code can raise. */
  datatype Exc =
    | KeyError(key: Value)
    | AttributeError(attr: string)
    | TypeError(what: string)
    | InvalidMessageError(why: Invalid)

  datatype Option<T> = None | Some(value: T)

  /** The outcome of a Python call that returns a value or raises. */
  datatype Result<T> = Ok(value: T) | Err(exc: Exc)

  /** The outcome of a Python call that returns nothing or raises. */
  datatype Outcome = Done | Raised(exc: Exc)

  /** Python's `v == k` for an integer `k`: a bool counts as 0 or 1 and a float
      compares by its numeric value; strings, `None`, lists and dicts equal no integer. */
  predicate EqualsInt(v: Value, k: int) {
    match v
    case VInt(i) => i == k
    case VBool(b) => (if b then 1 else 0) == k
    case VFloat(f) => f == k as real
    case _ => false
  }

  /** The integer a value stands for as a key of a dict keyed by integers: a lookup
      hashes the value and compares it with `==`, and `True`, `1` and `1.0` hash alike. */
  function IntKey(v: Value): (r: Option<int>)
    ensures forall k :: r == Some(k) <==> EqualsInt(v, k)
  {
    match v
    case VInt(i) => Some(i)
    case VBool(b) => Some(if b then 1 else 0)
    case VFloat(f) => if f == f.Floor as real then Some(f.Floor) else None
    case _ => None
  }

  /** Lists and dicts cannot be dict keys. */
  predicate Unhashable(v: Value) {
    v.VList? || v.VDict?
  }

  /** `d[v]` on a dict keyed by integers: the key of the entry it reads, or the error it
      raises — TypeError for an unhashable value, KeyError carrying the value itself when
      no key equals it. */
  function Subscript<T>(d: map<int, T>, v: Value): (r: Result<int>)
    ensures r.Ok? <==> !Unhashable(v) && exists k :: k in d && EqualsInt(v, k)
    ensures r.Ok? ==> r.value in d && EqualsInt(v, r.value)
    ensures r.Err? && Unhashable(v) ==> r.exc.TypeError?
    ensures r.Err? && !Unhashable(v) ==> r.exc == KeyError(v)
  {
    if Unhashable(v) then Err(TypeError(if v.VList? then "unhashable type: 'list'" else "unhashable type: 'dict'"))
    else match IntKey(v)
      case Some(k) => if k in d then Ok(k) else Err(KeyError(v))
      case None => Err(KeyError(v))
  }
}
