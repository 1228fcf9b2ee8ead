/**
  Failure-carrying datatypes shared by every module of the model.

  Python signals failure by raising; the model returns `Err` with the kind of
  exception the interpreter would raise at that point, and `Ok` otherwise.
  Both `Option` and `Result` support Dafny's `:-` operator.
 */
module Base {

  /** Python's `None` / present value. */
  datatype Option<+T> = None | Some(value: T) {

    predicate IsFailure() {
      None?
    }

    function PropagateFailure<U>(): Option<U>
      requires None?
    {
      None
    }

    function Extract(): T
      requires Some?
    {
      value
    }

    /** The present value, or `fallback` when absent. */
    function GetOr(fallback: T): T {
      match this
      case Some(v) => v
      case None => fallback
    }
  }

  /** The exceptions the modelled code can raise. */
  datatype Error =
    | ValueError(reason: string)
    | TypeError(reason: string)
    | IndexError
    | KeyError(key: string)
    | UnboundLocal(name: string)

  /** The outcome of a computation that may raise. */
  datatype Result<+T> = Ok(value: T) | Err(error: Error) {

    predicate IsFailure() {
      Err?
    }

    function PropagateFailure<U>(): Result<U>
      requires Err?
    {
      Err(error)
    }

    function Extract(): T
      requires Ok?
    {
      value
    }
  }

  /** Python truthiness of an optional number: `None` and `0.0` are false. */
  predicate Truthy(x: Option<real>) {
    x.Some? && x.value != 0.0
  }

  /** Python truthiness of an optional integer: `None` and `0` are false. */
  predicate TruthyInt(x: Option<int>) {
    x.Some? && x.value != 0
  }

  /** A numpy float cell: `nan`, or a number. */
  datatype Num = NaN | Val(v: real)

  /** A Python number or `None` stored in a numpy float cell: `None` becomes `nan`. */
  function NumOf(x: Option<real>): (n: Num)
    ensures n.NaN? <==> x.None?
    ensures x.Some? ==> n.v == x.value
  {
    match x
    case None => NaN
    case Some(v) => Val(v)
  }

  /** Absolute value, as `math.fabs`. */
  function Abs(x: real): (r: real)
    ensures r >= 0.0
    ensures r == x || r == -x
  {
    if x < 0.0 then -x else x
  }

  /** The elements of `s` for which `keep` holds, in order. */
  function Filter<T(==)>(s: seq<T>, keep: T -> bool): (r: seq<T>)
    ensures |r| <= |s|
    ensures forall i :: 0 <= i < |r| ==> r[i] in s && keep(r[i])
    ensures forall i :: 0 <= i < |s| && keep(s[i]) ==> s[i] in r
  {
    if |s| == 0 then []
    else (if keep(s[0]) then [s[0]] else []) + Filter(s[1..], keep)
  }

  /** A string stored in a fixed-width numpy byte-string cell (`aN`): cut to `n` characters. */
  function Truncate<T>(s: seq<T>, n: nat): (r: seq<T>)
    ensures |r| <= n && |r| <= |s| && r == s[..|r|]
    ensures |s| <= n ==> r == s
  {
    if |s| <= n then s else s[..n]
  }

  /** `xs` is a prefix of `ys`. */
  predicate IsPrefix<T(==)>(xs: seq<T>, ys: seq<T>) {
    |xs| <= |ys| && ys[..|xs|] == xs
  }

  /** The first position of `x` in `s` (Python's `list.index`). */
  function IndexOf<T(==)>(s: seq<T>, x: T): (i: nat)
    requires x in s
    ensures i < |s| && s[i] == x
    ensures forall j :: 0 <= j < i ==> s[j] != x
  {
    if s[0] == x then 0 else 1 + IndexOf(s[1..], x)
  }

  /** The elements of `xs[1..]` are those of `xs` after the first. */
  lemma TailIndices<T>(xs: seq<T>)
    requires |xs| > 0
    ensures forall i :: 1 <= i < |xs| ==> xs[1..][i - 1] == xs[i]
  {
  }

  /** The last `m` elements of `s[k..]` are the last `m` elements of `s`. */
  lemma SuffixOfDrop<T>(s: seq<T>, k: nat, m: nat)
    requires k <= |s| && m <= |s| - k
    ensures s[k..][|s| - k - m..] == s[|s| - m..]
  {
  }

  /** Concatenation is associative. */
  lemma AppendAssoc<T>(a: seq<T>, b: seq<T>, c: seq<T>)
    ensures a + b + c == a + (b + c)
  {
  }

  /**
   * Mapping a partial function over a nonempty list: the results of its first element
   * followed by those of the rest, and a failure anywhere in the list is a failure
   * in the first element or in the rest.
   */
  lemma MapResultsCons<A, B>(f: A -> Result<B>, xs: seq<A>, head: B, rest: Result<seq<B>>)
    requires |xs| > 0 && f(xs[0]) == Ok(head)
    requires rest.Ok? ==> (|rest.value| == |xs| - 1 &&
      forall j :: 0 <= j < |xs| - 1 ==> f(xs[1..][j]) == Ok(rest.value[j]))
    requires rest.Err? <==> exists j :: 0 <= j < |xs| - 1 && f(xs[1..][j]).Err?
    ensures rest.Ok? ==> forall j :: 0 <= j < |xs| ==> f(xs[j]) == Ok(([head] + rest.value)[j])
    ensures rest.Err? <==> exists j :: 0 <= j < |xs| && f(xs[j]).Err?
  {
    TailIndices(xs);
    if rest.Err? {
      var j :| 0 <= j < |xs| - 1 && f(xs[1..][j]).Err?;
      assert f(xs[j + 1]).Err?;
    }
  }
}
