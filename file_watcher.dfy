/**
 * The watcher callback of the command-line daemon: each watch result is
 * translated and, when it yields an action, sent on a bounded channel.
 */
module FileWatcher {
  import opened Wrappers
  import opened WatchEvents
  import opened Outcomes

  /** A watcher delivery: an event, or an error from the watcher. */
  type WatchResult = Result<Event, string>

  /** The event can be translated without indexing an empty path list. */
  predicate Translatable(res: WatchResult, canonical: Option<Path>)
  {
    res.Success? && (res.value.kind.Create? || res.value.kind.Remove?) && canonical.Some? ==>
      res.value.paths != []
  }

  /** What one delivery asks to send: nothing for an error or an untranslated event. */
  function Forwarded(res: WatchResult, canonical: Option<Path>): (r: seq<Action>)
    requires Translatable(res, canonical)
    ensures |r| <= 1
    ensures res.Failure? ==> r == []
    ensures res.Success? ==> (r != [] <==> EventToAction(res.value, canonical).Some?)
    ensures r != [] ==> r[0] == EventToAction(res.value, canonical).value
  {
    if res.Failure? then []
    else match EventToAction(res.value, canonical)
      case Some(a) => [a]
      case None => []
  }

  /** What a run of deliveries asks to send, in order. */
  function ForwardedAll(results: seq<WatchResult>, canonicals: seq<Option<Path>>): seq<Action>
    requires |results| == |canonicals|
    requires forall i :: 0 <= i < |results| ==> Translatable(results[i], canonicals[i])
  {
    if results == [] then []
    else
      var n := |results| - 1;
      ForwardedAll(results[..n], canonicals[..n]) + Forwarded(results[n], canonicals[n])
  }

  /** At most one action per delivery. */
  lemma {:induction false} ForwardedAllLength(results: seq<WatchResult>, canonicals: seq<Option<Path>>)
    requires |results| == |canonicals|
    requires forall i :: 0 <= i < |results| ==> Translatable(results[i], canonicals[i])
    ensures |ForwardedAll(results, canonicals)| <= |results|
    decreases |results|
  {
    if results != [] {
      var n := |results| - 1;
      ForwardedAllLength(results[..n], canonicals[..n]);
    }
  }

  /** A run of watcher errors sends nothing. */
  lemma {:induction false} ErrorsSendNothing(results: seq<WatchResult>, canonicals: seq<Option<Path>>)
    requires |results| == |canonicals|
    requires forall i :: 0 <= i < |results| ==> results[i].Failure?
    ensures ForwardedAll(results, canonicals) == []
    decreases |results|
  {
    if results != [] {
      var n := |results| - 1;
      ErrorsSendNothing(results[..n], canonicals[..n]);
    }
  }

  /**
   * The sending half of the channel, as the actions it delivered, the
   * outcomes of its `blocking_send` calls and the number of calls made: a
   * call fails, and its action is dropped after an error message, when the
   * receiving half is gone.
   */
  class Channel {
    var sent: seq<Action>
    const outcomes: seq<bool>
    var sends: nat

    constructor (outcomes: seq<bool>)
      ensures sent == [] && this.outcomes == outcomes && sends == 0
    {
      sent := [];
      this.outcomes := outcomes;
      sends := 0;
    }

    method BlockingSend(a: Action) returns (ok: bool)
      modifies this
      ensures ok == Accepts(outcomes, old(sends))
      ensures sends == old(sends) + 1
      ensures sent == if ok then old(sent) + [a] else old(sent)
    {
      ok := Accepts(outcomes, sends);
      if ok {
        sent := sent + [a];
      }
      sends := sends + 1;
    }
  }

  /**
   * The callback for one delivery; `canonical` is what canonicalizing the
   * watched directory gives when it runs. A failed send is reported and
   * the callback carries on.
   */
  method Callback(tx: Channel, res: WatchResult, canonical: Option<Path>)
    requires Translatable(res, canonical)
    modifies tx
    ensures tx.sends == old(tx.sends) + |Forwarded(res, canonical)|
    ensures tx.sent == old(tx.sent) + Kept(Forwarded(res, canonical), tx.outcomes, old(tx.sends))
  {
    if res.Failure? {
      return;
    }
    var action := EventToAction(res.value, canonical);
    if action.Some? {
      var _ := tx.BlockingSend(action.value);
      assert [action.value][..0] == [];
    }
  }

  lemma ForwardedAllSnoc(results: seq<WatchResult>, canonicals: seq<Option<Path>>, i: nat)
    requires |results| == |canonicals| && i < |results|
    requires forall k :: 0 <= k < |results| ==> Translatable(results[k], canonicals[k])
    ensures ForwardedAll(results[..i + 1], canonicals[..i + 1]) ==
      ForwardedAll(results[..i], canonicals[..i]) + Forwarded(results[i], canonicals[i])
  {
    assert results[..i + 1][..i] == results[..i] && canonicals[..i + 1][..i] == canonicals[..i];
  }

  /** One more delivery forwarded after a prefix of the run. */
  lemma ForwardedStep(earlier: seq<Action>, next: seq<Action>, outcomes: seq<bool>, from: nat,
                      start: seq<Action>, before: seq<Action>, after: seq<Action>)
    requires before == start + Kept(earlier, outcomes, from)
    requires after == before + Kept(next, outcomes, from + |earlier|)
    ensures after == start + Kept(earlier + next, outcomes, from)
  {
    KeptConcat(earlier, next, outcomes, from);
    var ke, kn := Kept(earlier, outcomes, from), Kept(next, outcomes, from + |earlier|);
    assert (start + ke) + kn == start + (ke + kn);
  }

  /**
   * The callback over a run of deliveries: the channel receives exactly the
   * forwarded actions whose sends succeed, in order.
   */
  method WatchAll(tx: Channel, results: seq<WatchResult>, canonicals: seq<Option<Path>>)
    requires |results| == |canonicals|
    requires forall i :: 0 <= i < |results| ==> Translatable(results[i], canonicals[i])
    modifies tx
    ensures tx.sends == old(tx.sends) + |ForwardedAll(results, canonicals)|
    ensures tx.sent == old(tx.sent) + Kept(ForwardedAll(results, canonicals), tx.outcomes, old(tx.sends))
  {
    for i := 0 to |results|
      invariant tx.sends == old(tx.sends) + |ForwardedAll(results[..i], canonicals[..i])|
      invariant tx.sent == old(tx.sent) + Kept(ForwardedAll(results[..i], canonicals[..i]), tx.outcomes, old(tx.sends))
    {
      ghost var before := tx.sent;
      ghost var earlier := ForwardedAll(results[..i], canonicals[..i]);
      ghost var next := Forwarded(results[i], canonicals[i]);
      ForwardedAllSnoc(results, canonicals, i);
      Callback(tx, results[i], canonicals[i]);
      ForwardedStep(earlier, next, tx.outcomes, old(tx.sends), old(tx.sent), before, tx.sent);
    }
    assert results[..|results|] == results && canonicals[..|canonicals|] == canonicals;
  }
}
