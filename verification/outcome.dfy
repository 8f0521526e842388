/**
 The ways a poll of the device can abort. The exporter panics in each of
 these situations; the model returns a failure value instead so that the
 abort is visible in the contracts. `Gather` is the shape of the
 exporter's appending loops: run a step per element, append what each
 step yields, stop at the first failure.
 */
module Outcome {

  datatype Failure =
    | MalformedElement   // an XML element the exporter committed to decoding did not decode
    | IndexOutOfRange    // a challenge segment named a wanted key but held no quote
    | TransportError     // the HTTP client could not complete an exchange

  /** A value, or the reason the poll aborted. Usable with `:-`. */
  datatype Result<+T> = Ok(value: T) | Fail(failure: Failure)
  {
    predicate IsFailure()
    {
      Fail?
    }

    function PropagateFailure<U>(): Result<U>
      requires Fail?
    {
      Fail(failure)
    }

    function Extract(): T
      requires Ok?
    {
      value
    }
  }

  /** A loop that runs `f` on each element in turn and appends what it
      yields, stopping at the first failure. */
  function Gather<T, V>(xs: seq<T>, f: T -> Result<seq<V>>): (r: Result<seq<V>>)
    ensures r.Ok? <==> forall i :: 0 <= i < |xs| ==> f(xs[i]).Ok?
    ensures r.Ok? ==> forall v :: v in r.value ==> exists i :: 0 <= i < |xs| && f(xs[i]).Ok? && v in f(xs[i]).value
    ensures r.Fail? ==> exists i :: 0 <= i < |xs| && f(xs[i]).Fail? && r.failure == f(xs[i]).failure &&
                                   forall j :: 0 <= j < i ==> f(xs[j]).Ok?
    decreases |xs|
  {
    if |xs| == 0 then Ok([])
    else
      var first :- f(xs[0]);
      var rest :- Gather(xs[1..], f);
      assert forall i :: 1 <= i < |xs| ==> xs[1..][i - 1] == xs[i];
      Ok(first + rest)
  }

  /** The loop's output is append-only: running it over `a + b` yields
      what it yields over `a`, then what it yields over `b`. */
  lemma {:induction false} GatherAppend<T, V>(a: seq<T>, b: seq<T>, f: T -> Result<seq<V>>)
    requires Gather(a, f).Ok? && Gather(b, f).Ok?
    ensures Gather(a + b, f) == Ok(Gather(a, f).value + Gather(b, f).value)
    decreases |a|
  {
    if |a| == 0 {
      assert a + b == b;
      assert [] + Gather(b, f).value == Gather(b, f).value;
    } else {
      var ab := a + b;
      assert ab[0] == a[0] && ab[1..] == a[1..] + b;
      GatherAppend(a[1..], b, f);
      var x, y, z := f(a[0]).value, Gather(a[1..], f).value, Gather(b, f).value;
      assert Gather(a, f).value == x + y;
      assert Gather(ab, f).value == x + (y + z);
      assert x + (y + z) == (x + y) + z;
    }
  }

  /** A loop whose every turn yields nothing yields nothing. */
  lemma {:induction false} GatherNothing<T, V>(xs: seq<T>, f: T -> Result<seq<V>>)
    requires forall i :: 0 <= i < |xs| ==> f(xs[i]) == Ok([])
    ensures Gather(xs, f) == Ok([])
    decreases |xs|
  {
    if |xs| > 0 {
      assert forall i :: 0 <= i < |xs| - 1 ==> xs[1..][i] == xs[i + 1];
      GatherNothing(xs[1..], f);
      assert Gather(xs, f).value == [] + [];
    }
  }

  /** Nothing is lost: every value a turn yields is in the loop's output. */
  lemma {:induction false} GatherIncludes<T, V>(xs: seq<T>, f: T -> Result<seq<V>>, i: nat)
    requires Gather(xs, f).Ok? && i < |xs|
    ensures f(xs[i]).Ok?
    ensures forall v :: v in f(xs[i]).value ==> v in Gather(xs, f).value
    decreases |xs|
  {
    assert Gather(xs, f).value == f(xs[0]).value + Gather(xs[1..], f).value;
    if i > 0 {
      assert xs[1..][i - 1] == xs[i];
      GatherIncludes(xs[1..], f, i - 1);
    }
  }

  /** What one turn contributes to a loop's output: its values, or
      nothing when it fails. */
  function Yield<V>(r: Result<seq<V>>): seq<V>
  {
    if r.Ok? then r.value else []
  }

  /** What each turn of a loop yields, one entry per element, in list
      order. */
  function Turns<T, V>(xs: seq<T>, f: T -> Result<seq<V>>): (vs: seq<seq<V>>)
    ensures |vs| == |xs| && forall i :: 0 <= i < |xs| ==> vs[i] == Yield(f(xs[i]))
    decreases |xs|
  {
    if |xs| == 0 then []
    else
      assert forall i :: 1 <= i < |xs| ==> xs[1..][i - 1] == xs[i];
      [Yield(f(xs[0]))] + Turns(xs[1..], f)
  }

  /** A list of lists written out one after the other, the last list last. */
  function Flatten<V>(parts: seq<seq<V>>): seq<V>
    decreases |parts|
  {
    if |parts| == 0 then [] else Flatten(parts[..|parts| - 1]) + parts[|parts| - 1]
  }

  /** Flattening, seen from the front: the first list, then the rest. */
  lemma {:induction false} FlattenCons<V>(parts: seq<seq<V>>)
    requires |parts| > 0
    ensures Flatten(parts) == parts[0] + Flatten(parts[1..])
    decreases |parts|
  {
    if |parts| > 1 {
      var n := |parts|;
      assert parts[..n - 1][0] == parts[0];
      assert parts[..n - 1][1..] == parts[1..][..n - 2];
      FlattenCons(parts[..n - 1]);
      assert parts[1..][n - 2] == parts[n - 1];
      assert Flatten(parts[1..]) == Flatten(parts[1..][..n - 2]) + parts[n - 1];
    } else {
      assert parts[..0] == [];
      assert parts[1..] == [];
    }
  }

  /** The loop's output is exactly the values of its turns, element by
      element in list order: nothing is added, dropped, repeated or
      reordered. */
  lemma {:induction false} GatherInOrder<T, V>(xs: seq<T>, f: T -> Result<seq<V>>)
    requires Gather(xs, f).Ok?
    ensures Gather(xs, f).value == Flatten(Turns(xs, f))
    decreases |xs|
  {
    if |xs| > 0 {
      GatherInOrder(xs[1..], f);
      var t := Turns(xs, f);
      assert t[1..] == Turns(xs[1..], f);
      FlattenCons(t);
    }
  }
}
