/** Option and Result values used for the colorizer's absent values and raised exceptions. */
module Wrappers {
  import opened SeqFacts

  datatype Option<+T> = None | Some(value: T)

  /** A Python call either returns a value or raises; `Failure` carries what was raised. */
  datatype Result<+R, +E> = Success(value: R) | Failure(error: E)

  /**
   * The values of `rs` in order when all of them succeed, else the first failure: what a loop
   * that computes one result per item and lets the first exception escape produces.
   */
  function Collect<T, E>(rs: seq<Result<T, E>>): Result<seq<T>, E> {
    if rs == [] then Success([])
    else match rs[0]
      case Failure(e) => Failure(e)
      case Success(v) =>
        match Collect(rs[1..])
        case Failure(e) => Failure(e)
        case Success(vs) => Success([v] + vs)
  }

  /** Collecting `a + b` collects `a`, then `b`, and puts their values one after the other. */
  lemma {:induction false} CollectConcat<T, E>(a: seq<Result<T, E>>, b: seq<Result<T, E>>)
    ensures Collect(a + b) ==
      match Collect(a)
      case Failure(e) => Failure(e)
      case Success(va) =>
        match Collect(b)
        case Failure(e) => Failure(e)
        case Success(vb) => Success(va + vb)
  {
    ConcatHead(a, b);
    if a == [] {
      match Collect(b)
      case Failure(e) =>
      case Success(vb) => ConcatEmpty(vb);
    } else {
      CollectConcat(a[1..], b);
      match a[0]
      case Failure(e) =>
      case Success(v) =>
        match Collect(a[1..])
        case Failure(e) =>
        case Success(va) =>
          match Collect(b)
          case Failure(e) =>
          case Success(vb) => ConcatAssoc([v], va, vb);
    }
  }

  /** One more success extends the values collected so far by its value. */
  lemma CollectAppend<T, E>(rs: seq<Result<T, E>>, vs: seq<T>, v: T)
    requires Collect(rs) == Success(vs)
    ensures Collect(rs + [Success(v)]) == Success(vs + [v])
  {
    var one: seq<Result<T, E>> := [Success(v)];
    ConcatHead(one, []);
    ConcatEmpty([v]);
    CollectConcat(rs, one);
  }

  /** `Collect` succeeds with `vs` exactly when `rs` is `vs`, position by position, wrapped in `Success`. */
  lemma {:induction false} CollectPerPosition<T, E>(rs: seq<Result<T, E>>, vs: seq<T>)
    ensures Collect(rs) == Success(vs) <==> |vs| == |rs| && forall j :: 0 <= j < |rs| ==> rs[j] == Success(vs[j])
  {
    if rs != [] && vs != [] {
      CollectPerPosition(rs[1..], vs[1..]);
      assert forall j :: 1 <= j < |rs| ==> rs[1..][j - 1] == rs[j];
      assert forall j :: 1 <= j < |vs| ==> vs[1..][j - 1] == vs[j];
      HeadTail(vs);
    } else if rs != [] {
      match rs[0]
      case Failure(e) =>
      case Success(v) =>
        match Collect(rs[1..])
        case Failure(e) =>
        case Success(rest) => assert |[v] + rest| > 0;
    }
  }

  /** When `rs[i]` is the first failure, `Collect` fails with its error, whatever follows it. */
  lemma {:induction false} CollectFirstFailure<T, E>(rs: seq<Result<T, E>>, i: nat)
    requires i < |rs| && rs[i].Failure?
    requires forall j :: 0 <= j < i ==> rs[j].Success?
    ensures Collect(rs) == Failure(rs[i].error)
  {
    if i > 0 {
      assert forall j :: 0 <= j < i - 1 ==> rs[1..][j] == rs[j + 1];
      CollectFirstFailure(rs[1..], i - 1);
    }
  }
}
