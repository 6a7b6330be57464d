/** The untimed behaviour of the Kotlin flow operators the application
    chains: `distinctUntilChanged` and dropping nulls. */
module Flows {
  import opened Wrappers

  /** No element equals its successor. */
  predicate NoRepeats<T(==)>(xs: seq<T>) {
    forall i :: 0 < i < |xs| ==> xs[i - 1] != xs[i]
  }

  /** `distinctUntilChanged()`, given the value emitted last (if any): a
      value is emitted unless it equals the one emitted just before it. */
  function DistinctUntilChanged<T(==)>(xs: seq<T>, last: Option<T>): (r: seq<T>)
    ensures |r| <= |xs|
    ensures |xs| > 0 && last != Some(xs[0]) ==> |r| > 0 && r[0] == xs[0]
    decreases |xs|
  {
    if |xs| == 0 then []
    else if last == Some(xs[0]) then DistinctUntilChanged(xs[1..], last)
    else [xs[0]] + DistinctUntilChanged(xs[1..], Some(xs[0]))
  }

  /** The output never repeats a value twice in a row, does not start with
      the value emitted last, and holds only values of the input. */
  lemma {:induction false} DistinctShape<T>(xs: seq<T>, last: Option<T>)
    ensures NoRepeats(DistinctUntilChanged(xs, last))
    ensures |DistinctUntilChanged(xs, last)| > 0 ==> last != Some(DistinctUntilChanged(xs, last)[0])
    ensures forall x :: x in DistinctUntilChanged(xs, last) ==> x in xs
    decreases |xs|
  {
    if |xs| > 0 {
      var next := if last == Some(xs[0]) then last else Some(xs[0]);
      DistinctShape(xs[1..], next);
      var rest := DistinctUntilChanged(xs[1..], next);
      assert forall x :: x in rest ==> x in xs;
      if last != Some(xs[0]) {
        var r := [xs[0]] + rest;
        assert DistinctUntilChanged(xs, last) == r;
        forall i | 0 < i < |r| ensures r[i - 1] != r[i] {
          if i > 1 {
            assert r[i - 1] == rest[i - 2] && r[i] == rest[i - 1];
          }
        }
      }
    }
  }

  /** The value last seen after `xs`, starting from `last`. */
  function LastOf<T>(xs: seq<T>, last: Option<T>): Option<T> {
    if |xs| == 0 then last else Some(xs[|xs| - 1])
  }

  /** The operator runs over a concatenation part by part: the second part
      is compared against the last value of the first. So the output keeps
      the input order, and a value is dropped exactly when it equals the
      value just before it. */
  lemma {:induction false} DistinctAppend<T>(a: seq<T>, b: seq<T>, last: Option<T>)
    ensures DistinctUntilChanged(a + b, last) ==
      DistinctUntilChanged(a, last) + DistinctUntilChanged(b, LastOf(a, last))
    decreases |a|
  {
    if |a| == 0 {
      assert a + b == b;
    } else {
      var ab := a + b;
      assert ab[0] == a[0];
      assert ab[1..] == a[1..] + b;
      if last == Some(a[0]) {
        DistinctAppend(a[1..], b, last);
        assert LastOf(a[1..], last) == LastOf(a, last);
      } else {
        var next := Some(a[0]);
        DistinctAppend(a[1..], b, next);
        assert LastOf(a[1..], next) == LastOf(a, last);
        var rest := DistinctUntilChanged(a[1..], next);
        var tail := DistinctUntilChanged(b, LastOf(a, last));
        assert [a[0]] + (rest + tail) == ([a[0]] + rest) + tail;
      }
    }
  }

  /** One more value: it is emitted exactly when it differs from the value
      before it. */
  lemma DistinctStep<T>(a: seq<T>, x: T, last: Option<T>)
    ensures DistinctUntilChanged(a + [x], last) ==
      DistinctUntilChanged(a, last) + (if LastOf(a, last) == Some(x) then [] else [x])
  {
    DistinctAppend(a, [x], last);
    assert [x][1..] == [];
  }

  /** Every value of the input is emitted, unless it is the value emitted
      last before the input started and never changes. */
  lemma {:induction false} DistinctKeepsValues<T>(xs: seq<T>, last: Option<T>, x: T)
    requires x in xs
    ensures x in DistinctUntilChanged(xs, last) || last == Some(x)
    decreases |xs|
  {
    if xs[0] == x {
      if last != Some(x) {
        assert DistinctUntilChanged(xs, last)[0] == x;
      }
    } else {
      assert x in xs[1..];
      if last == Some(xs[0]) {
        DistinctKeepsValues(xs[1..], last, x);
      } else {
        DistinctKeepsValues(xs[1..], Some(xs[0]), x);
        if x in DistinctUntilChanged(xs[1..], Some(xs[0])) {
          assert DistinctUntilChanged(xs, last) == [xs[0]] + DistinctUntilChanged(xs[1..], Some(xs[0]));
        }
      }
    }
  }

  /** A sequence without repeats, not starting with the value emitted last,
      passes unchanged. */
  lemma {:induction false} DistinctFixesNoRepeats<T>(xs: seq<T>, last: Option<T>)
    requires NoRepeats(xs)
    requires |xs| > 0 ==> last != Some(xs[0])
    ensures DistinctUntilChanged(xs, last) == xs
    decreases |xs|
  {
    if |xs| > 0 {
      assert NoRepeats(xs[1..]) by {
        forall i | 0 < i < |xs[1..]| ensures xs[1..][i - 1] != xs[1..][i] {
          assert xs[i] != xs[i + 1];
        }
      }
      if |xs| > 1 {
        assert xs[0] != xs[1];
      }
      DistinctFixesNoRepeats(xs[1..], Some(xs[0]));
      assert xs == [xs[0]] + xs[1..];
    }
  }

  /** The non-null values, in order: what `collect { it?.let { ... } }`
      acts on. */
  function Present<T>(xs: seq<Option<T>>): (r: seq<T>)
    ensures |r| <= |xs|
    ensures |xs| > 0 && xs[0].Some? ==> |r| > 0 && r[0] == xs[0].value
  {
    if |xs| == 0 then []
    else
      match xs[0]
      case None => Present(xs[1..])
      case Some(x) => [x] + Present(xs[1..])
  }

  /** A value is kept exactly when it occurs non-null in the input. */
  lemma {:induction false} PresentMembers<T>(xs: seq<Option<T>>)
    ensures forall x :: x in Present(xs) ==> Some(x) in xs
    ensures forall i :: 0 <= i < |xs| && xs[i].Some? ==> xs[i].value in Present(xs)
    decreases |xs|
  {
    if |xs| > 0 {
      PresentMembers(xs[1..]);
      assert forall i :: 1 <= i < |xs| ==> xs[i] == xs[1..][i - 1];
    }
  }

  /** Dropping nulls from a concatenation drops them from each part. */
  lemma {:induction false} PresentAppend<T>(a: seq<Option<T>>, b: seq<Option<T>>)
    ensures Present(a + b) == Present(a) + Present(b)
    decreases |a|
  {
    if |a| == 0 {
      assert a + b == b;
    } else {
      assert (a + b)[0] == a[0];
      assert (a + b)[1..] == a[1..] + b;
      PresentAppend(a[1..], b);
    }
  }
}
