/** Shared datatypes: optional values, the script's fatal errors, and the
    fold that concatenates per-item results while stopping at the first error. */
module Common {

  datatype Option<+T> = None | Some(value: T)

  /** Why an extraction stops. Each case is a TypeError the script throws
      (js/main.js) and that aborts the whole async function. */
  datatype Fault =
    | UnquotedOnclick(onclick: string) // `match(...)` gave null, so `[1]` throws
    | MissingHome                      // `getElementById("home")` gave null
    | MissingStatusColumn              // the row has no `td03` cell
    | MissingTitleAnchor               // the row has no anchor
    | MissingTable                     // `removeTable` found no table to remove

  datatype Result<+T> = Success(value: T) | Failure(fault: Fault)

  /** Sequential composition of two partial lists: the first failure wins. */
  function Concat<Y>(a: Result<seq<Y>>, b: Result<seq<Y>>): Result<seq<Y>>
  {
    match a
    case Failure(_) => a
    case Success(xs) =>
      match b
      case Failure(_) => b
      case Success(ys) => Success(xs + ys)
  }

  /** Runs `f` on every item in order and concatenates the results; the
      first item whose result is a failure aborts the whole run. Defined on
      the last item so that a loop over `xs[..i]` extends it one step. */
  function ConcatMap<X, Y>(xs: seq<X>, f: X -> Result<seq<Y>>): Result<seq<Y>>
    decreases |xs|
  {
    if |xs| == 0 then Success([])
    else Concat(ConcatMap(xs[..|xs| - 1], f), f(xs[|xs| - 1]))
  }

  lemma ConcatAssociative<Y>(a: Result<seq<Y>>, b: Result<seq<Y>>, c: Result<seq<Y>>)
    ensures Concat(Concat(a, b), c) == Concat(a, Concat(b, c))
  {
    if a.Success? && b.Success? && c.Success? {
      assert (a.value + b.value) + c.value == a.value + (b.value + c.value);
    }
  }

  /** One more item extends the fold by that item's result. */
  lemma ConcatMapStep<X, Y>(xs: seq<X>, i: nat, f: X -> Result<seq<Y>>)
    requires i < |xs|
    ensures ConcatMap(xs[..i + 1], f) == Concat(ConcatMap(xs[..i], f), f(xs[i]))
  {
    assert xs[..i + 1][..i] == xs[..i];
  }

  /** The fold over a concatenation is the composition of the two folds:
      results keep the order of the items. */
  lemma {:induction false} ConcatMapAppend<X, Y>(a: seq<X>, b: seq<X>, f: X -> Result<seq<Y>>)
    ensures ConcatMap(a + b, f) == Concat(ConcatMap(a, f), ConcatMap(b, f))
    decreases |b|
  {
    if |b| == 0 {
      assert a + b == a;
      match ConcatMap(a, f)
      case Failure(_) =>
      case Success(xs) => assert xs + [] == xs;
    } else {
      var b' := b[..|b| - 1];
      assert (a + b)[..|a + b| - 1] == a + b';
      assert (a + b)[|a + b| - 1] == b[|b| - 1];
      ConcatMapAppend(a, b', f);
      ConcatAssociative(ConcatMap(a, f), ConcatMap(b', f), f(b[|b| - 1]));
    }
  }

  /** The fold fails exactly when some item's result fails. */
  lemma {:induction false} ConcatMapFailsIff<X, Y>(xs: seq<X>, f: X -> Result<seq<Y>>)
    ensures ConcatMap(xs, f).Failure? <==> exists i :: 0 <= i < |xs| && f(xs[i]).Failure?
    decreases |xs|
  {
    if |xs| > 0 {
      var init := xs[..|xs| - 1];
      ConcatMapFailsIff(init, f);
      if ConcatMap(xs, f).Failure? && ConcatMap(init, f).Success? {
        assert f(xs[|xs| - 1]).Failure?;
      }
      if ConcatMap(init, f).Failure? {
        var i :| 0 <= i < |init| && f(init[i]).Failure?;
        assert xs[i] == init[i];
      }
      if exists i :: 0 <= i < |xs| && f(xs[i]).Failure? {
        var i :| 0 <= i < |xs| && f(xs[i]).Failure?;
        if i < |init| {
          assert init[i] == xs[i];
        }
      }
    }
  }

  /** When the items before `k` succeed and item `k` fails, the fold
      reports exactly item `k`'s failure. */
  lemma ConcatMapFirstFailure<X, Y>(xs: seq<X>, k: nat, f: X -> Result<seq<Y>>)
    requires k < |xs| && f(xs[k]).Failure?
    requires forall j :: 0 <= j < k ==> f(xs[j]).Success?
    ensures ConcatMap(xs, f) == f(xs[k])
  {
    ConcatMapFailsIff(xs[..k], f);
    ConcatMapStep(xs, k, f);
    ConcatMapPrefixFailure(xs, k + 1, f);
  }

  /** A failure in a prefix is the failure of the whole fold. */
  lemma ConcatMapPrefixFailure<X, Y>(xs: seq<X>, j: nat, f: X -> Result<seq<Y>>)
    requires j <= |xs| && ConcatMap(xs[..j], f).Failure?
    ensures ConcatMap(xs, f) == ConcatMap(xs[..j], f)
  {
    assert xs == xs[..j] + xs[j..];
    ConcatMapAppend(xs[..j], xs[j..], f);
  }

  /** A successful fold holds exactly the elements of the items' results. */
  lemma {:induction false} ConcatMapMembers<X, Y>(xs: seq<X>, f: X -> Result<seq<Y>>, ys: seq<Y>)
    requires ConcatMap(xs, f) == Success(ys)
    ensures forall y :: y in ys <==> exists i :: 0 <= i < |xs| && f(xs[i]).Success? && y in f(xs[i]).value
    decreases |xs|
  {
    if |xs| > 0 {
      var init := xs[..|xs| - 1];
      var last := |xs| - 1;
      var r := ConcatMap(init, f);
      assert r.Success? && f(xs[last]).Success?;
      ConcatMapMembers(init, f, r.value);
      assert ys == r.value + f(xs[last]).value;
      forall y | y in ys
        ensures exists i :: 0 <= i < |xs| && f(xs[i]).Success? && y in f(xs[i]).value
      {
        if y in r.value {
          var i :| 0 <= i < |init| && f(init[i]).Success? && y in f(init[i]).value;
          assert xs[i] == init[i];
        } else {
          assert y in f(xs[last]).value;
        }
      }
      forall y | exists i :: 0 <= i < |xs| && f(xs[i]).Success? && y in f(xs[i]).value
        ensures y in ys
      {
        var i :| 0 <= i < |xs| && f(xs[i]).Success? && y in f(xs[i]).value;
        if i < last {
          assert init[i] == xs[i];
        }
      }
    }
  }
}
