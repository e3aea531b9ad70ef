/**
 * The outcomes of a run of requests to something outside the model (a
 * browser, a channel's receiver, the bus's subscribers), listed in request
 * order and numbered from 0. Any request may fail, whatever the earlier
 * ones did.
 */
module Outcomes {

  /** Whether request `k` succeeds; a request past the listed ones succeeds. */
  predicate Accepts(outcomes: seq<bool>, k: nat)
  {
    k >= |outcomes| || outcomes[k]
  }

  /** Every request numbered from `from` up to, but not including, `until` succeeds. */
  predicate AcceptsAll(outcomes: seq<bool>, from: nat, until: nat)
    decreases until
  {
    until <= from || (AcceptsAll(outcomes, from, until - 1) && Accepts(outcomes, until - 1))
  }

  /** `AcceptsAll` says of each request in the range that it succeeds. */
  lemma {:induction false} AcceptsAllEach(outcomes: seq<bool>, from: nat, until: nat)
    ensures AcceptsAll(outcomes, from, until) <==> forall k :: from <= k < until ==> Accepts(outcomes, k)
    decreases until
  {
    if from < until {
      AcceptsAllEach(outcomes, from, until - 1);
    }
  }

  /** Two accepted runs, one after the other, make one accepted run. */
  lemma {:induction false} AcceptsAllThen(outcomes: seq<bool>, from: nat, mid: nat, until: nat)
    requires from <= mid <= until
    requires AcceptsAll(outcomes, from, mid) && AcceptsAll(outcomes, mid, until)
    ensures AcceptsAll(outcomes, from, until)
    decreases until
  {
    if mid < until {
      AcceptsAllThen(outcomes, from, mid, until - 1);
    }
  }

  /** One refused request in the range breaks the run. */
  lemma {:induction false} RefusedBreaks(outcomes: seq<bool>, from: nat, k: nat, until: nat)
    requires from <= k < until && !Accepts(outcomes, k)
    ensures !AcceptsAll(outcomes, from, until)
    decreases until
  {
    if k < until - 1 {
      RefusedBreaks(outcomes, from, k, until - 1);
    }
  }

  /** Request `k` is the first one refused since request `from`. */
  predicate FirstRefusedSince(outcomes: seq<bool>, from: nat, k: nat)
  {
    from <= k && !Accepts(outcomes, k) && AcceptsAll(outcomes, from, k)
  }

  /** A first refusal after an accepted run is the first refusal of the whole. */
  lemma FirstRefusedAfter(outcomes: seq<bool>, from: nat, mid: nat, k: nat)
    requires from <= mid && AcceptsAll(outcomes, from, mid) && FirstRefusedSince(outcomes, mid, k)
    ensures FirstRefusedSince(outcomes, from, k)
  {
    AcceptsAllThen(outcomes, from, mid, k);
  }

  /**
   * The items of a run of fire-and-forget requests, the first of them
   * numbered `from`, that got through: the i-th item is kept exactly when
   * request `from + i` succeeds.
   */
  function Kept<T>(items: seq<T>, outcomes: seq<bool>, from: nat): (r: seq<T>)
    ensures |r| <= |items|
  {
    if items == [] then []
    else
      var n := |items| - 1;
      Kept(items[..n], outcomes, from) + (if Accepts(outcomes, from + n) then [items[n]] else [])
  }

  lemma KeptSnoc<T>(items: seq<T>, outcomes: seq<bool>, from: nat, i: nat)
    requires i < |items|
    ensures Kept(items[..i + 1], outcomes, from) ==
      Kept(items[..i], outcomes, from) + (if Accepts(outcomes, from + i) then [items[i]] else [])
  {
    assert items[..i + 1][..i] == items[..i];
  }

  /** When every request succeeds, every item gets through, in order. */
  lemma {:induction false} KeptAll<T>(items: seq<T>, outcomes: seq<bool>, from: nat)
    requires AcceptsAll(outcomes, from, from + |items|)
    ensures Kept(items, outcomes, from) == items
    decreases |items|
  {
    if items != [] {
      var n := |items| - 1;
      KeptAll(items[..n], outcomes, from);
      assert items == items[..n] + [items[n]];
    }
  }

  /** When every request fails, nothing gets through. */
  lemma {:induction false} KeptNone<T>(items: seq<T>, outcomes: seq<bool>, from: nat)
    requires forall k :: from <= k < from + |items| ==> !Accepts(outcomes, k)
    ensures Kept(items, outcomes, from) == []
    decreases |items|
  {
    if items != [] {
      KeptNone(items[..|items| - 1], outcomes, from);
    }
  }

  /** A second run of requests is numbered on from where the first one ended. */
  lemma {:induction false} KeptConcat<T>(xs: seq<T>, ys: seq<T>, outcomes: seq<bool>, from: nat)
    ensures Kept(xs + ys, outcomes, from) == Kept(xs, outcomes, from) + Kept(ys, outcomes, from + |xs|)
    decreases |ys|
  {
    if ys == [] {
      assert xs + ys == xs;
    } else {
      var n := |ys| - 1;
      var init := ys[..n];
      assert (xs + ys)[..|xs + ys| - 1] == xs + init;
      assert (xs + ys)[|xs + ys| - 1] == ys[n];
      KeptConcat(xs, init, outcomes, from);
      var tail := if Accepts(outcomes, from + |xs| + n) then [ys[n]] else [];
      assert (Kept(xs, outcomes, from) + Kept(init, outcomes, from + |xs|)) + tail ==
        Kept(xs, outcomes, from) + (Kept(init, outcomes, from + |xs|) + tail);
    }
  }
}
