/** Outcomes of the lookup routes: the route-level error responses (each
    carrying the text the route writes into its error message) and the Python
    exceptions that escape a route, plus the traversal "apply a fallible step
    to every element, stop at the first failure" that both routes' loops
    perform. */
module Results {

  datatype Error =
    | EmptyName                     // name route, empty input
    | NameNotFound(name: string)    // name route, no close match for a token
    | EmptyCode                     // code route, empty input list
    | InvalidAlpha3(code: string)   // code route, 3-character token not an alpha-3 code
    | InvalidAlpha2(code: string)   // code route, single token not a valid code
    | IndexError                    // Python IndexError: list index out of range
    | KeyError(key: string)         // Python KeyError: dictionary key missing

  /** The `message` the route puts into its 400 response. The two Python
      exceptions escape the route (Flask then answers with status 500); for
      them this is the text Python gives the exception (`str` of it). For a
      `KeyError` that text is `repr` of the key, which is the key in single
      quotes only for a key without quotes, backslashes or non-printable
      characters; other keys are not escaped here. */
  function Message(e: Error): string
  {
    match e
    case EmptyName => "The name input parameter cannot be empty."
    case NameNotFound(n) => "Country name " + n + " not found in the ISO 3166."
    case EmptyCode => "The alpha-2 input parameter cannot be empty."
    case InvalidAlpha3(c) => "Invalid 3 letter alpha-3 code input: " + c + "."
    case InvalidAlpha2(c) => "Invalid 2 letter alpha-2 code input: " + c + "."
    case IndexError => "list index out of range"
    case KeyError(k) => "'" + k + "'"
  }

  datatype Option<T> = None | Some(value: T)

  datatype Result<T> = Ok(value: T) | Err(error: Error) {
    predicate IsFailure() { Err? }

    function PropagateFailure<U>(): Result<U>
      requires Err?
    {
      Err(error)
    }

    function Extract(): T
      requires Ok?
    {
      value
    }
  }

  /** Applies `f` to every element in order; the first failure is the result. */
  function MapAll<A, B>(xs: seq<A>, f: A -> Result<B>): Result<seq<B>>
    decreases |xs|
  {
    if xs == [] then Ok([])
    else
      var y :- f(xs[0]);
      var ys :- MapAll(xs[1..], f);
      Ok([y] + ys)
  }

  /** The results already collected, put in front of the outcome for the rest. */
  function Prepend<B>(done: seq<B>, r: Result<seq<B>>): Result<seq<B>>
  {
    match r
    case Ok(ys) => Ok(done + ys)
    case Err(e) => Err(e)
  }

  /** The traversal of a single element is that element's step. */
  lemma MapAllSingle<A, B>(x: A, f: A -> Result<B>)
    ensures f(x).Ok? ==> MapAll([x], f) == Ok([f(x).value])
    ensures f(x).Err? ==> MapAll([x], f) == Err(f(x).error)
  {
    assert [x][1..] == [];
    if f(x).Ok? {
      assert [f(x).value] + [] == [f(x).value];
    }
  }

  /** Nothing collected yet: the outcome is unchanged. */
  lemma PrependNothing<B>(r: Result<seq<B>>)
    ensures Prepend([], r) == r
  {
    if r.Ok? {
      assert [] + r.value == r.value;
    }
  }

  /** Collecting one more result moves it from the outcome to the front. */
  lemma PrependStep<B>(done: seq<B>, y: B, r: Result<seq<B>>)
    ensures Prepend(done, Prepend([y], r)) == Prepend(done + [y], r)
  {
    if r.Ok? {
      assert done + ([y] + r.value) == done + [y] + r.value;
    }
  }

  /** Traversals with steps that agree on every element agree. */
  lemma {:induction false} MapAllSame<A, B>(xs: seq<A>, f: A -> Result<B>, g: A -> Result<B>)
    requires forall x :: f(x) == g(x)
    ensures MapAll(xs, f) == MapAll(xs, g)
    decreases |xs|
  {
    if xs != [] {
      MapAllSame(xs[1..], f, g);
    }
  }

  /** The index of the first element `f` fails on (|xs| when there is none). */
  function FirstFailure<A, B>(xs: seq<A>, f: A -> Result<B>): (k: nat)
    ensures k <= |xs|
    ensures forall j :: 0 <= j < k ==> f(xs[j]).Ok?
    ensures k < |xs| ==> f(xs[k]).Err?
    decreases |xs|
  {
    if xs == [] || f(xs[0]).Err? then 0 else 1 + FirstFailure(xs[1..], f)
  }

  /** The traversal succeeds exactly when every step does, and then it holds
      one result per element, in order. */
  lemma {:induction false} MapAllOk<A, B>(xs: seq<A>, f: A -> Result<B>)
    ensures MapAll(xs, f).Ok? <==> forall i :: 0 <= i < |xs| ==> f(xs[i]).Ok?
    ensures MapAll(xs, f).Ok? ==>
      |MapAll(xs, f).value| == |xs| &&
      forall i :: 0 <= i < |xs| ==> f(xs[i]) == Ok(MapAll(xs, f).value[i])
    decreases |xs|
  {
    if xs != [] {
      MapAllOk(xs[1..], f);
      if f(xs[0]).Ok? && MapAll(xs[1..], f).Ok? {
        var ys := MapAll(xs[1..], f).value;
        assert MapAll(xs, f).value == [f(xs[0]).value] + ys;
        forall i | 1 <= i < |xs| ensures f(xs[i]) == Ok(MapAll(xs, f).value[i]) {
          assert xs[i] == xs[1..][i - 1];
        }
      } else if f(xs[0]).Ok? {
        var i :| 0 <= i < |xs[1..]| && f(xs[1..][i]).Err?;
        assert xs[1..][i] == xs[i + 1];
      }
    }
  }

  /** A failing traversal fails with the error of the first failing element,
      and every element before it succeeded. */
  lemma {:induction false} MapAllErr<A, B>(xs: seq<A>, f: A -> Result<B>)
    ensures MapAll(xs, f).Err? ==>
      var k := FirstFailure(xs, f);
      k < |xs| && MapAll(xs, f).error == f(xs[k]).error
    decreases |xs|
  {
    if xs != [] && f(xs[0]).Ok? {
      MapAllErr(xs[1..], f);
    }
  }

  /** One step of the traversal, as a loop over `xs` takes it at index `i`. */
  lemma MapAllStep<A, B>(xs: seq<A>, i: nat, f: A -> Result<B>)
    requires i < |xs|
    ensures f(xs[i]).Err? ==> MapAll(xs[i..], f) == Err(f(xs[i]).error)
    ensures f(xs[i]).Ok? ==> MapAll(xs[i..], f) == Prepend([f(xs[i]).value], MapAll(xs[i + 1..], f))
  {
    assert xs[i..][0] == xs[i];
    assert xs[i..][1..] == xs[i + 1..];
  }
}
