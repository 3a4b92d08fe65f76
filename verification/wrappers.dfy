/**
 * Failure-compatible wrappers shared by every module of the model.
 *
 * The modelled code signals errors by raising Python exceptions; here each
 * such raise becomes an `Err` carrying the exception class and a short
 * English reason, so that callers and lemmas can state the error paths.
 */
module Wrappers {

  /** The conventional optional value, also used for Python's `None`. */
  datatype Option<+T> = None | Some(value: T) {

    predicate IsFailure() {
      None?
    }

    function PropagateFailure<U>(): Option<U>
      requires None?
    {
      None
    }

    function Extract(): T
      requires Some?
    {
      value
    }

    function GetOr(default: T): T {
      match this
      case Some(v) => v
      case None => default
    }
  }

  /** The Python exception classes raised by the modelled code. */
  datatype Exc =
    | ValueError
    | RuntimeError
    | TypeError
    | KeyError
    | IndexError
    | AttributeError
    | AssertionError
    | StructError
    | TimeoutError
    | OverflowError
    | UnicodeDecodeError
    | LdapError
    | NoOptionError

  /** A raised exception: its class and a short description of the cause. */
  datatype Failure = Failure(exc: Exc, reason: string)

  /** Either a value or the exception that was raised instead. */
  datatype Result<+T> = Ok(value: T) | Err(failure: Failure) {

    predicate IsFailure() {
      Err?
    }

    function PropagateFailure<U>(): Result<U>
      requires Err?
    {
      Err(failure)
    }

    function Extract(): T
      requires Ok?
    {
      value
    }
  }

  /** Shorthand for raising `exc` with `reason`. */
  function Raise<T>(exc: Exc, reason: string): Result<T> {
    Err(Failure(exc, reason))
  }

  /** True when `r` is an error of class `exc`. */
  predicate RaisedAs<T>(r: Result<T>, exc: Exc) {
    r.Err? && r.failure.exc == exc
  }

  /** A check that passes or raises, used with `:-` in functions returning `Result`. */
  datatype Outcome = Pass | Fail(failure: Failure) {

    predicate IsFailure() {
      Fail?
    }

    function PropagateFailure<U>(): Result<U>
      requires Fail?
    {
      Err(failure)
    }
  }

  /** Passes when `condition` holds and raises `exc` otherwise. */
  function Need(condition: bool, exc: Exc, reason: string): (o: Outcome)
  {
    if condition then Pass else Fail(Failure(exc, reason))
  }

  /**
   * A Python loop that applies `f` to every element in order and stops at the
   * first exception: the list of results, or the first element's exception.
   */
  function MapAll<T, U>(xs: seq<T>, f: T --> Result<U>): (r: Result<seq<U>>)
    requires forall i | 0 <= i < |xs| :: f.requires(xs[i])
    ensures r.Ok? <==> forall i | 0 <= i < |xs| :: f(xs[i]).Ok?
    ensures r.Ok? ==> |r.value| == |xs| && forall i | 0 <= i < |xs| :: f(xs[i]) == Ok(r.value[i])
    ensures r.Err? ==> exists i | 0 <= i < |xs| :: f(xs[i]) == Err(r.failure)
                                                  && forall j | 0 <= j < i :: f(xs[j]).Ok?
  {
    if |xs| == 0 then Ok([])
    else
      var first :- f(xs[0]);
      assert forall i | 1 <= i < |xs| :: xs[1..][i - 1] == xs[i];
      var rest :- MapAll(xs[1..], f);
      Ok([first] + rest)
  }

  /** When every element gives its own value, the whole sequence gives the sequence of values. */
  lemma MapAllValues<T, U>(xs: seq<T>, f: T --> Result<U>, ys: seq<U>)
    requires forall i | 0 <= i < |xs| :: f.requires(xs[i])
    requires |ys| == |xs| && forall i | 0 <= i < |xs| :: f(xs[i]) == Ok(ys[i])
    ensures MapAll(xs, f) == Ok(ys)
  {
    var r := MapAll(xs, f);
    assert r.Ok?;
    assert r.value == ys;
  }
}
