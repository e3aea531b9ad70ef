/**
 * The action bus shared by the adapters: every action is published in an
 * envelope naming its source, and each adapter skips the envelopes it
 * published itself.
 */
module ActionBus {
  import opened Outcomes

  datatype Envelope<A> = Envelope(source: string, action: A)

  /** The actions of one source, each in its envelope, in order. */
  function Tagged<A>(source: string, actions: seq<A>): (r: seq<Envelope<A>>)
    ensures |r| == |actions|
  {
    if actions == [] then []
    else Tagged(source, actions[..|actions| - 1]) + [Envelope(source, actions[|actions| - 1])]
  }

  lemma {:induction false} TaggedConcat<A>(source: string, xs: seq<A>, ys: seq<A>)
    ensures Tagged(source, xs + ys) == Tagged(source, xs) + Tagged(source, ys)
    decreases |ys|
  {
    if ys != [] {
      var init := ys[..|ys| - 1];
      assert (xs + ys)[..|xs + ys| - 1] == xs + init;
      assert (xs + ys)[|xs + ys| - 1] == ys[|ys| - 1];
      TaggedConcat(source, xs, init);
    } else {
      assert xs + ys == xs;
    }
  }

  /** The actions carried by some envelopes, in order. */
  function Actions<A>(envs: seq<Envelope<A>>): (r: seq<A>)
    ensures |r| == |envs|
  {
    if envs == [] then [] else Actions(envs[..|envs| - 1]) + [envs[|envs| - 1].action]
  }

  /** The envelopes not published by `identity`, in order: what an echo-suppressing subscriber acts on. */
  function Foreign<A>(envs: seq<Envelope<A>>, identity: string): (r: seq<Envelope<A>>)
    ensures |r| <= |envs|
  {
    if envs == [] then []
    else
      var last := envs[|envs| - 1];
      Foreign(envs[..|envs| - 1], identity) + (if last.source == identity then [] else [last])
  }

  /** `Tagged` puts each action, in place, in an envelope of the given source. */
  lemma {:induction false} TaggedAt<A>(source: string, actions: seq<A>, i: nat)
    requires i < |actions|
    ensures Tagged(source, actions)[i] == Envelope(source, actions[i])
    decreases |actions|
  {
    if i < |actions| - 1 {
      TaggedAt(source, actions[..|actions| - 1], i);
    }
  }

  /** Unwrapping tagged actions gives the actions back. */
  lemma {:induction false} ActionsOfTagged<A>(source: string, actions: seq<A>)
    ensures Actions(Tagged(source, actions)) == actions
    decreases |actions|
  {
    if actions != [] {
      var init := actions[..|actions| - 1];
      ActionsOfTagged(source, init);
      var t := Tagged(source, actions);
      assert t[..|t| - 1] == Tagged(source, init);
      assert actions == init + [actions[|actions| - 1]];
    }
  }

  /** The echo filter keeps exactly the envelopes of other sources. */
  lemma {:induction false} ForeignMembers<A>(envs: seq<Envelope<A>>, identity: string, e: Envelope<A>)
    ensures e in Foreign(envs, identity) <==> e in envs && e.source != identity
    decreases |envs|
  {
    if envs != [] {
      var init := envs[..|envs| - 1];
      ForeignMembers(init, identity, e);
      assert envs == init + [envs[|envs| - 1]];
    }
  }

  lemma {:induction false} ForeignConcat<A>(xs: seq<Envelope<A>>, ys: seq<Envelope<A>>, identity: string)
    ensures Foreign(xs + ys, identity) == Foreign(xs, identity) + Foreign(ys, identity)
    decreases |ys|
  {
    if ys != [] {
      var init := ys[..|ys| - 1];
      assert (xs + ys)[..|xs + ys| - 1] == xs + init;
      assert (xs + ys)[|xs + ys| - 1] == ys[|ys| - 1];
      ForeignConcat(xs, init, identity);
    } else {
      assert xs + ys == xs;
    }
  }

  /** One more envelope considered by the filter. */
  lemma ForeignSnoc<A>(envs: seq<Envelope<A>>, i: nat, identity: string)
    requires i < |envs|
    ensures Foreign(envs[..i + 1], identity) ==
      Foreign(envs[..i], identity) + (if envs[i].source == identity then [] else [envs[i]])
  {
    assert envs[..i + 1][..i] == envs[..i];
  }

  lemma ActionsSnoc<A>(envs: seq<Envelope<A>>, e: Envelope<A>)
    ensures Actions(envs + [e]) == Actions(envs) + [e.action]
  {
    assert (envs + [e])[..|envs|] == envs;
  }

  lemma TaggedSnoc<A>(source: string, xs: seq<A>, j: nat)
    requires j < |xs|
    ensures Tagged(source, xs[..j + 1]) == Tagged(source, xs[..j]) + [Envelope(source, xs[j])]
  {
    assert xs[..j + 1][..j] == xs[..j];
  }

  /** A log extended by one more tagged action. */
  lemma TaggedLogSnoc<A>(log: seq<Envelope<A>>, source: string, xs: seq<A>, j: nat)
    requires j < |xs|
    ensures log + Tagged(source, xs[..j + 1]) == (log + Tagged(source, xs[..j])) + [Envelope(source, xs[j])]
  {
    TaggedSnoc(source, xs, j);
    var t := Tagged(source, xs[..j]);
    assert log + (t + [Envelope(source, xs[j])]) == (log + t) + [Envelope(source, xs[j])];
  }

  /** A subscriber ignores everything it published itself. */
  lemma {:induction false} OwnEchoIgnored<A>(identity: string, actions: seq<A>)
    ensures Foreign(Tagged(identity, actions), identity) == []
    decreases |actions|
  {
    if actions != [] {
      var init := actions[..|actions| - 1];
      OwnEchoIgnored(identity, init);
      var t := Tagged(identity, actions);
      assert t[..|t| - 1] == Tagged(identity, init);
    }
  }

  /** The echo filter keeps every envelope of another source, in order. */
  lemma {:induction false} OthersKept<A>(source: string, identity: string, actions: seq<A>)
    requires source != identity
    ensures Foreign(Tagged(source, actions), identity) == Tagged(source, actions)
    decreases |actions|
  {
    if actions != [] {
      var init := actions[..|actions| - 1];
      OthersKept(source, identity, init);
      var t := Tagged(source, actions);
      assert t[..|t| - 1] == Tagged(source, init);
    }
  }

  /**
   * The broadcast sender, as its log of published envelopes, the outcomes
   * of its sends (whether each finds a live receiver) and the number of
   * sends made: subscribers call `subscribe` again for every envelope, so
   * any send may fail, and a failed send publishes nothing.
   */
  class Bus<A> {
    var published: seq<Envelope<A>>
    const outcomes: seq<bool>
    var sends: nat

    constructor (outcomes: seq<bool>)
      ensures published == [] && this.outcomes == outcomes && sends == 0
    {
      published := [];
      this.outcomes := outcomes;
      sends := 0;
    }

    method Send(e: Envelope<A>) returns (ok: bool)
      modifies this
      ensures ok == Accepts(outcomes, old(sends))
      ensures sends == old(sends) + 1
      ensures published == if ok then old(published) + [e] else old(published)
    {
      ok := Accepts(outcomes, sends);
      if ok {
        published := published + [e];
      }
      sends := sends + 1;
    }
  }
}
