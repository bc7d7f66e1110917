/** The optional values of the `effect` library, as the pipelines of the
    extractor and the validator use them: a lookup that may come back empty
    and a chain of steps that short-circuits on the first empty one. */
module Options {

  datatype Option<+T> = None | Some(value: T) {

    /** `O.map`: applies `f` to a present value. */
    function Map<U>(f: T --> U): Option<U>
      requires Some? ==> f.requires(value)
    {
      match this
      case None => None
      case Some(v) => Some(f(v))
    }

    /** `O.flatMap`: continues the chain with a step that may itself fail. */
    function FlatMap<U>(f: T --> Option<U>): Option<U>
      requires Some? ==> f.requires(value)
    {
      match this
      case None => None
      case Some(v) => f(v)
    }

    /** `O.filter`: keeps a present value only when it satisfies `p`. */
    function Filter(p: T -> bool): Option<T>
    {
      match this
      case None => None
      case Some(v) => if p(v) then Some(v) else None
    }

    /** `O.getOrElse`: the present value, or the fallback. */
    function GetOr(default: T): T
    {
      match this
      case None => default
      case Some(v) => v
    }
  }

  /** `O.liftPredicate(p)(x)`: `x` itself when it satisfies `p`. */
  function Lift<T>(x: T, p: T -> bool): Option<T>
  {
    if p(x) then Some(x) else None
  }

  /** `O.fromNullable(s[i])`: reading past the end of an array gives
      `undefined`, which becomes the empty option. */
  function At<T>(s: seq<T>, i: nat): Option<T>
  {
    if i < |s| then Some(s[i]) else None
  }

  /** `O.all({a, b})`: both values, or nothing when either is absent. */
  function Both<A, B>(a: Option<A>, b: Option<B>): Option<(A, B)>
  {
    match (a, b)
    case (Some(x), Some(y)) => Some((x, y))
    case _ => None
  }

  /** `O.fromNullable(record[key])` on a record of own entries. */
  function Lookup<K, V>(m: map<K, V>, k: K): Option<V>
  {
    if k in m then Some(m[k]) else None
  }
}
