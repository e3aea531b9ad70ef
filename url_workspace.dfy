/**
 * The URL-multiset workspace: a workspace is a list of URLs in which the
 * same URL may appear several times, and the diff between two workspaces
 * is computed from per-URL occurrence counts.
 */
module UrlWorkspace {
  import opened Wrappers

  type Url = string

  datatype Action = OpenTab(url: Url) | CloseTab(url: Url)

  /** The first index at which `u` occurs in `tabs` (iterator `position`). */
  function Position(tabs: seq<Url>, u: Url): (r: Option<nat>)
    ensures r.None? <==> u !in tabs
    ensures r.Some? ==> r.value < |tabs| && tabs[r.value] == u && u !in tabs[..r.value]
  {
    if tabs == [] then None
    else if tabs[0] == u then Some(0)
    else match Position(tabs[1..], u)
      case None => None
      case Some(i) =>
        assert tabs[..i + 1] == [tabs[0]] + tabs[1..][..i];
        Some(i + 1)
  }

  /**
   * The tab list after one action: OpenTab appends, CloseTab removes the
   * first occurrence of its URL and does nothing when the URL is absent.
   */
  function Applied(tabs: seq<Url>, action: Action): (r: seq<Url>)
    ensures action.OpenTab? ==> |r| == |tabs| + 1 && r[..|tabs|] == tabs && r[|tabs|] == action.url
    ensures action.OpenTab? ==> multiset(r) == multiset(tabs) + multiset{action.url}
    ensures action.CloseTab? && action.url !in tabs ==> r == tabs
    ensures action.CloseTab? ==> multiset(r) == multiset(tabs) - multiset{action.url}
  {
    match action
    case OpenTab(u) => tabs + [u]
    case CloseTab(u) =>
      match Position(tabs, u)
      case None => tabs
      case Some(i) =>
        assert tabs == tabs[..i] + [tabs[i]] + tabs[i + 1..];
        tabs[..i] + tabs[i + 1..]
  }

  /** CloseTab removes exactly the first occurrence of its URL and keeps the other tabs in order. */
  lemma CloseRemovesFirst(tabs: seq<Url>, u: Url)
    requires u in tabs
    ensures exists i :: (0 <= i < |tabs| && tabs[i] == u && u !in tabs[..i] &&
                         Applied(tabs, CloseTab(u)) == tabs[..i] + tabs[i + 1..])
  {
    var i := Position(tabs, u).value;
    assert tabs[i] == u && u !in tabs[..i];
  }

  /** The tab list after applying `actions` one after another, from the first. */
  function ApplyAll(tabs: seq<Url>, actions: seq<Action>): seq<Url>
  {
    if actions == [] then tabs
    else Applied(ApplyAll(tabs, actions[..|actions| - 1]), actions[|actions| - 1])
  }

  /** The URLs of the OpenTab actions, in order. */
  function Opened(actions: seq<Action>): seq<Url>
  {
    if actions == [] then []
    else (if actions[0].OpenTab? then [actions[0].url] else []) + Opened(actions[1..])
  }

  /** The URLs of the CloseTab actions, in order. */
  function Closed(actions: seq<Action>): seq<Url>
  {
    if actions == [] then []
    else (if actions[0].CloseTab? then [actions[0].url] else []) + Closed(actions[1..])
  }

  /** Every OpenTab comes before every CloseTab. */
  predicate OpensFirst(actions: seq<Action>)
  {
    forall i, j :: 0 <= i < j < |actions| && actions[j].OpenTab? ==> actions[i].OpenTab?
  }

  /**
   * What `actions_from_diff(current, target)` promises, whatever order the
   * hash maps are iterated in: all OpenTabs first, then all CloseTabs; for
   * every URL, as many OpenTabs as target has surplus occurrences of it and
   * as many CloseTabs as current has surplus occurrences of it (multiset
   * difference is truncated at zero, which is the empty `0..(count - other)`
   * range of the source).
   */
  ghost predicate IsDiff(current: seq<Url>, target: seq<Url>, actions: seq<Action>)
  {
    && OpensFirst(actions)
    && multiset(Opened(actions)) == multiset(target) - multiset(current)
    && multiset(Closed(actions)) == multiset(current) - multiset(target)
  }

  lemma {:induction false} OpenedAppend(actions: seq<Action>, a: Action)
    ensures Opened(actions + [a]) == Opened(actions) + (if a.OpenTab? then [a.url] else [])
    ensures Closed(actions + [a]) == Closed(actions) + (if a.CloseTab? then [a.url] else [])
  {
    if actions == [] {
      assert actions + [a] == [a];
    } else {
      var h, rest := actions[0], actions[1..];
      assert (actions + [a])[0] == h;
      assert (actions + [a])[1..] == rest + [a];
      OpenedAppend(rest, a);
      var ho: seq<Url> := if h.OpenTab? then [h.url] else [];
      var hc: seq<Url> := if h.CloseTab? then [h.url] else [];
      var ao: seq<Url> := if a.OpenTab? then [a.url] else [];
      var ac: seq<Url> := if a.CloseTab? then [a.url] else [];
      assert ho + (Opened(rest) + ao) == (ho + Opened(rest)) + ao;
      assert hc + (Closed(rest) + ac) == (hc + Closed(rest)) + ac;
    }
  }

  /** One more action applied after a prefix of a sequence. */
  lemma ApplyAllStep(tabs: seq<Url>, actions: seq<Action>, j: nat, before: seq<Url>, after: seq<Url>)
    requires j < |actions|
    requires before == ApplyAll(tabs, actions[..j])
    requires after == Applied(before, actions[j])
    ensures after == ApplyAll(tabs, actions[..j + 1])
  {
    assert actions[..j + 1][..j] == actions[..j];
  }

  /**
   * Applying a sequence whose opens come first adds the opened URLs and
   * then takes away the closed ones, each close removing at most one
   * occurrence.
   */
  lemma {:induction false} ApplyAllMultiset(tabs: seq<Url>, actions: seq<Action>)
    requires OpensFirst(actions)
    ensures multiset(ApplyAll(tabs, actions)) ==
      (multiset(tabs) + multiset(Opened(actions))) - multiset(Closed(actions))
    decreases |actions|
  {
    if actions != [] {
      var n := |actions| - 1;
      var init, a := actions[..n], actions[n];
      assert actions == init + [a];
      assert OpensFirst(init) by {
        forall i, j | 0 <= i < j < |init| && init[j].OpenTab? ensures init[i].OpenTab? {
          assert init[i] == actions[i] && init[j] == actions[j];
        }
      }
      ApplyAllMultiset(tabs, init);
      OpenedAppend(init, a);
      var m, o, c := multiset(tabs), multiset(Opened(init)), multiset(Closed(init));
      var before := ApplyAll(tabs, init);
      assert ApplyAll(tabs, actions) == Applied(before, a);
      if a.CloseTab? {
        assert Opened(actions) == Opened(init) + [];
        assert Closed(actions) == Closed(init) + [a.url];
        assert multiset(Opened(actions)) == o && multiset(Closed(actions)) == c + multiset{a.url};
        CloseStep(before, a.url, m + o, c);
      } else {
        assert forall j :: 0 <= j < |init| ==> init[j].OpenTab? by {
          forall j | 0 <= j < |init| ensures init[j].OpenTab? {
            assert init[j] == actions[j];
          }
        }
        OnlyOpensCloseNothing(init);
        assert Closed(actions) == [] + [];
        assert Opened(actions) == Opened(init) + [a.url];
        assert multiset(Opened(actions)) == o + multiset{a.url} && multiset(Closed(actions)) == multiset{};
        OpenStep(before, a.url, m, o);
      }
    } else {
      assert (multiset(tabs) + multiset{}) - multiset{} == multiset(tabs);
    }
  }

  /** The multiset step for a trailing close. */
  lemma CloseStep(before: seq<Url>, u: Url, grown: multiset<Url>, c: multiset<Url>)
    requires multiset(before) == grown - c
    ensures multiset(Applied(before, CloseTab(u))) == grown - (c + multiset{u})
  {
    SubtractOne(grown, c, u);
  }

  /** The multiset step for a trailing open, once no close was applied. */
  lemma OpenStep(before: seq<Url>, u: Url, m: multiset<Url>, o: multiset<Url>)
    requires multiset(before) == (m + o) - multiset{}
    ensures multiset(Applied(before, OpenTab(u))) == (m + (o + multiset{u})) - multiset{}
  {
    assert (m + o) - multiset{} == m + o;
    assert (m + (o + multiset{u})) - multiset{} == m + (o + multiset{u});
  }

  /** Taking away a multiset and then one more URL is taking away their sum. */
  lemma SubtractOne(m: multiset<Url>, c: multiset<Url>, u: Url)
    ensures (m - c) - multiset{u} == m - (c + multiset{u})
  {
    forall x ensures ((m - c) - multiset{u})[x] == (m - (c + multiset{u}))[x] {
    }
  }

  lemma {:induction false} OnlyClosesOpenNothing(actions: seq<Action>)
    requires forall j :: 0 <= j < |actions| ==> actions[j].CloseTab?
    ensures Opened(actions) == []
  {
    if actions != [] {
      OnlyClosesOpenNothing(actions[1..]);
    }
  }

  /**
   * Convergence: applying a diff of current against target to current
   * gives a tab list with exactly target's URLs and multiplicities.
   */
  lemma Convergence(current: seq<Url>, target: seq<Url>, actions: seq<Action>)
    requires IsDiff(current, target, actions)
    ensures multiset(ApplyAll(current, actions)) == multiset(target)
  {
    ApplyAllMultiset(current, actions);
    var c, t := multiset(current), multiset(target);
    forall x ensures ((c + (t - c)) - (c - t))[x] == t[x] {
    }
  }

  lemma {:induction false} OpenedClosedLength(actions: seq<Action>)
    ensures |actions| == |Opened(actions)| + |Closed(actions)|
  {
    if actions != [] {
      OpenedClosedLength(actions[1..]);
    }
  }

  /**
   * The diff has one action per unit of difference: the sum over URLs of
   * |target count - current count|.
   */
  lemma DiffLength(current: seq<Url>, target: seq<Url>, actions: seq<Action>)
    requires IsDiff(current, target, actions)
    ensures |actions| ==
      |multiset(target) - multiset(current)| + |multiset(current) - multiset(target)|
  {
    OpenedClosedLength(actions);
    assert |multiset(Opened(actions))| == |Opened(actions)|;
    assert |multiset(Closed(actions))| == |Closed(actions)|;
  }

  /** A workspace diffed against itself or any reordering of itself yields no action. */
  lemma DiffOfReorderingIsEmpty(current: seq<Url>, target: seq<Url>, actions: seq<Action>)
    requires multiset(current) == multiset(target)
    requires IsDiff(current, target, actions)
    ensures actions == []
  {
    DiffLength(current, target, actions);
    var c := multiset(current);
    assert c - c == multiset{};
  }

  /** Two copies of a URL against one: the only diff is a single CloseTab. */
  lemma DuplicateClosesOnce(a: Url, actions: seq<Action>)
    requires IsDiff([a, a], [a], actions)
    ensures actions == [CloseTab(a)]
  {
    DiffLength([a, a], [a], actions);
    assert multiset([a]) - multiset([a, a]) == multiset{};
    assert multiset([a, a]) - multiset([a]) == multiset{a};
    var x := actions[0];
    assert actions == [x];
    assert Opened(actions) == (if x.OpenTab? then [x.url] else []) + Opened([]);
    assert Closed(actions) == (if x.CloseTab? then [x.url] else []) + Closed([]);
  }

  /** Opening a URL twice and closing it once leaves exactly one entry. */
  lemma OpenTwiceCloseOnce(d: Url)
    ensures ApplyAll([], [OpenTab(d), OpenTab(d), CloseTab(d)]) == [d]
  {
    var acts := [OpenTab(d), OpenTab(d), CloseTab(d)];
    assert Applied([], OpenTab(d)) == [d];
    assert Applied([d], OpenTab(d)) == [d, d];
    assert Position([d, d], d) == Some(0);
    assert Applied([d, d], CloseTab(d)) == [d];
    assert acts[..2] == [OpenTab(d), OpenTab(d)] && acts[..2][..1] == [OpenTab(d)] && acts[..2][..1][..0] == [];
    calc {
      ApplyAll([], acts);
      Applied(ApplyAll([], acts[..2]), CloseTab(d));
      Applied(Applied(ApplyAll([], acts[..2][..1]), OpenTab(d)), CloseTab(d));
      Applied(Applied(Applied([], OpenTab(d)), OpenTab(d)), CloseTab(d));
    }
  }

  /** The per-URL occurrence counts of a list, with the keys it contains. */
  ghost predicate CountsOf(count: map<Url, int>, m: multiset<Url>)
  {
    && (forall u :: u in count <==> u in m)
    && (forall u :: u in count ==> count[u] == m[u])
  }

  /** Builds the frequency table of `s`, as the source's `entry().or_insert(0) += 1` loops do. */
  method CountOccurrences(s: seq<Url>) returns (count: map<Url, int>)
    ensures CountsOf(count, multiset(s))
  {
    count := map[];
    var i := 0;
    while i < |s|
      invariant 0 <= i <= |s|
      invariant CountsOf(count, multiset(s[..i]))
    {
      var tab := s[i];
      assert s[..i + 1] == s[..i] + [tab];
      count := count[tab := (if tab in count then count[tab] else 0) + 1];
      i := i + 1;
    }
    assert s[..i] == s;
  }

  /** The workspace of `src/model.rs`: its tabs are a list of URLs changed in place. */
  class Workspace {
    var tabs: seq<Url>

    constructor (tabs: seq<Url>)
      ensures this.tabs == tabs
    {
      this.tabs := tabs;
    }

    /** The first tab equal to `url`, if any. */
    function FindTab(url: Url): (r: Option<Url>)
      reads this
      ensures r.Some? <==> url in tabs
      ensures r.Some? ==> r.value == url
    {
      match Position(tabs, url)
      case None => None
      case Some(i) => Some(tabs[i])
    }

    method ApplyAction(action: Action)
      modifies this
      ensures tabs == Applied(old(tabs), action)
    {
      match action
      case OpenTab(u) =>
        tabs := tabs + [u];
      case CloseTab(u) =>
        var index := Position(tabs, u);
        if index.Some? {
          tabs := tabs[..index.value] + tabs[index.value + 1..];
        }
    }

    /**
     * The actions that turn this workspace into `workspace`: OpenTabs for
     * the URLs `workspace` has more of, then CloseTabs for the URLs this
     * workspace has more of.
     */
    method ActionsFromDiff(workspace: Workspace) returns (actions: seq<Action>)
      ensures IsDiff(tabs, workspace.tabs, actions)
    {
      var selfTabCount := CountOccurrences(tabs);
      var workspaceTabCount := CountOccurrences(workspace.tabs);
      actions := PushOpens(selfTabCount, workspaceTabCount, multiset(tabs), multiset(workspace.tabs));
      ghost var opens := actions;
      actions := PushCloses(actions, selfTabCount, workspaceTabCount, multiset(tabs), multiset(workspace.tabs));
      assert forall i :: 0 <= i < |opens| ==> actions[i] == opens[i];
    }
  }

  /** `n` copies of the action `a`. */
  function Repeat(a: Action, n: nat): (r: seq<Action>)
    ensures |r| == n && forall i :: 0 <= i < n ==> r[i] == a
  {
    seq(n, _ => a)
  }

  /** The URLs opened and closed by `n` copies of one action. */
  lemma RepeatCounts(a: Action, n: nat)
    ensures multiset(Opened(Repeat(a, n))) == if a.OpenTab? then multiset{}[a.url := n] else multiset{}
    ensures multiset(Closed(Repeat(a, n))) == if a.CloseTab? then multiset{}[a.url := n] else multiset{}
  {
    if a.OpenTab? {
      RepeatOpens(a.url, n);
    } else {
      RepeatCloses(a.url, n);
    }
  }

  lemma {:induction false} RepeatOpens(u: Url, n: nat)
    ensures multiset(Opened(Repeat(OpenTab(u), n))) == multiset{}[u := n]
    ensures Closed(Repeat(OpenTab(u), n)) == []
  {
    if n > 0 {
      var shorter := Repeat(OpenTab(u), n - 1);
      assert Repeat(OpenTab(u), n) == shorter + [OpenTab(u)];
      RepeatOpens(u, n - 1);
      OpenedAppend(shorter, OpenTab(u));
      assert multiset(Opened(shorter + [OpenTab(u)])) == multiset(Opened(shorter)) + multiset{u};
    }
  }

  lemma {:induction false} RepeatCloses(u: Url, n: nat)
    ensures multiset(Closed(Repeat(CloseTab(u), n))) == multiset{}[u := n]
    ensures Opened(Repeat(CloseTab(u), n)) == []
  {
    if n > 0 {
      var shorter := Repeat(CloseTab(u), n - 1);
      assert Repeat(CloseTab(u), n) == shorter + [CloseTab(u)];
      RepeatCloses(u, n - 1);
      OpenedAppend(shorter, CloseTab(u));
      assert multiset(Closed(shorter + [CloseTab(u)])) == multiset(Closed(shorter)) + multiset{u};
    }
  }

  /**
   * The inner loop `for _ in 0..times { actions.push(a) }` of the diff:
   * appends `times` copies of `a`, none when `times` is not positive (an
   * empty range).
   */
  method PushCopies(actions: seq<Action>, a: Action, times: int) returns (r: seq<Action>)
    ensures r == actions + Repeat(a, if times > 0 then times else 0)
  {
    r := actions;
    var n := 0;
    while n < times
      invariant 0 <= n && (n <= times || n == 0)
      invariant r == actions + Repeat(a, n)
    {
      assert Repeat(a, n + 1) == Repeat(a, n) + [a];
      r := r + [a];
      n := n + 1;
    }
  }

  /**
   * The first emission loop of the diff: for every URL of the target's
   * table, visited in an arbitrary order (hash-map iteration order is
   * unspecified), `target count - current count` OpenTabs.
   */
  method PushOpens(selfTabCount: map<Url, int>, workspaceTabCount: map<Url, int>,
                   ghost c: multiset<Url>, ghost t: multiset<Url>)
    returns (actions: seq<Action>)
    requires CountsOf(selfTabCount, c) && CountsOf(workspaceTabCount, t)
    ensures forall i :: 0 <= i < |actions| ==> actions[i].OpenTab?
    ensures multiset(Opened(actions)) == t - c
  {
    actions := [];
    var pending := workspaceTabCount.Keys;
    while pending != {}
      invariant pending <= workspaceTabCount.Keys
      invariant forall i :: 0 <= i < |actions| ==> actions[i].OpenTab?
      invariant DoneExcept(multiset(Opened(actions)), pending, t - c)
      decreases pending
    {
      var tab :| tab in pending;
      pending := pending - {tab};
      var count := workspaceTabCount[tab];
      var selfCount := if tab in selfTabCount then selfTabCount[tab] else 0;
      var added := if count - selfCount > 0 then count - selfCount else 0;
      assert added == (t - c)[tab];
      ghost var before := actions;
      actions := PushCopies(actions, OpenTab(tab), count - selfCount);
      forall i | 0 <= i < |actions| ensures actions[i].OpenTab? {
        if i < |before| {
          assert actions[i] == before[i];
        } else {
          assert actions[i] == Repeat(OpenTab(tab), added)[i - |before|];
        }
      }
      RepeatCounts(OpenTab(tab), added);
      OpenedConcat(before, Repeat(OpenTab(tab), added));
      DoneStep(multiset(Opened(before)), tab, added, pending, t - c);
    }
    DoneAll(multiset(Opened(actions)), t - c);
  }

  /** `m` agrees with `goal` on every URL, except that it has none of the URLs still `pending`. */
  ghost predicate DoneExcept(m: multiset<Url>, pending: set<Url>, goal: multiset<Url>)
  {
    forall v :: m[v] == if v in pending then 0 else goal[v]
  }

  lemma DoneStep(m: multiset<Url>, tab: Url, added: nat, pending: set<Url>, goal: multiset<Url>)
    requires DoneExcept(m, pending + {tab}, goal) && tab !in pending && added == goal[tab]
    ensures DoneExcept(m + multiset{}[tab := added], pending, goal)
  {
  }

  lemma DoneAll(m: multiset<Url>, goal: multiset<Url>)
    requires DoneExcept(m, {}, goal)
    ensures m == goal
  {
  }

  /**
   * The second emission loop: for every URL of the current table, in an
   * arbitrary order, `current count - target count` CloseTabs appended
   * after the OpenTabs already emitted.
   */
  method PushCloses(opens: seq<Action>, selfTabCount: map<Url, int>, workspaceTabCount: map<Url, int>,
                    ghost c: multiset<Url>, ghost t: multiset<Url>)
    returns (actions: seq<Action>)
    requires CountsOf(selfTabCount, c) && CountsOf(workspaceTabCount, t)
    requires forall i :: 0 <= i < |opens| ==> opens[i].OpenTab?
    ensures |opens| <= |actions| && actions[..|opens|] == opens
    ensures forall i :: |opens| <= i < |actions| ==> actions[i].CloseTab?
    ensures Opened(actions) == Opened(opens)
    ensures multiset(Closed(actions)) == c - t
  {
    OnlyOpensCloseNothing(opens);
    actions := opens;
    var pending := selfTabCount.Keys;
    while pending != {}
      invariant pending <= selfTabCount.Keys
      invariant |opens| <= |actions| && actions[..|opens|] == opens
      invariant forall i :: |opens| <= i < |actions| ==> actions[i].CloseTab?
      invariant Opened(actions) == Opened(opens)
      invariant DoneExcept(multiset(Closed(actions)), pending, c - t)
      decreases pending
    {
      var tab :| tab in pending;
      pending := pending - {tab};
      var count := selfTabCount[tab];
      var workspaceCount := if tab in workspaceTabCount then workspaceTabCount[tab] else 0;
      var added := if count - workspaceCount > 0 then count - workspaceCount else 0;
      assert added == (c - t)[tab];
      ghost var before := actions;
      actions := PushCopies(actions, CloseTab(tab), count - workspaceCount);
      RepeatCounts(CloseTab(tab), added);
      OpenedConcat(before, Repeat(CloseTab(tab), added));
      DoneStep(multiset(Closed(before)), tab, added, pending, c - t);
      PrefixOfCopies(opens, before, actions, CloseTab(tab));
    }
    DoneAll(multiset(Closed(actions)), c - t);
  }

  /** Appending copies of a close keeps the opens prefix and the opened URLs. */
  lemma PrefixOfCopies(opens: seq<Action>, before: seq<Action>, after: seq<Action>, a: Action)
    requires a.CloseTab?
    requires |opens| <= |before| && before[..|opens|] == opens
    requires forall i :: |opens| <= i < |before| ==> before[i].CloseTab?
    requires Opened(before) == Opened(opens)
    requires |before| <= |after| && after[..|before|] == before
    requires forall i :: |before| <= i < |after| ==> after[i] == a
    ensures |opens| <= |after| && after[..|opens|] == opens
    ensures forall i :: |opens| <= i < |after| ==> after[i].CloseTab?
    ensures Opened(after) == Opened(opens)
  {
    assert after[..|opens|] == before[..|opens|];
    var tail := after[|before|..];
    assert after == before + tail;
    OpenedConcat(before, tail);
    OnlyClosesOpenNothing(tail);
    forall i | |opens| <= i < |after| ensures after[i].CloseTab? {
      if i >= |before| { assert after[i] == a; } else { assert after[i] == before[i]; }
    }
  }

  lemma {:induction false} OpenedConcat(xs: seq<Action>, ys: seq<Action>)
    ensures Opened(xs + ys) == Opened(xs) + Opened(ys)
    ensures Closed(xs + ys) == Closed(xs) + Closed(ys)
  {
    if xs == [] {
      assert xs + ys == ys;
    } else {
      var a := xs[0];
      assert (xs + ys)[0] == a;
      assert (xs + ys)[1..] == xs[1..] + ys;
      OpenedConcat(xs[1..], ys);
      var o := if a.OpenTab? then [a.url] else [];
      var c := if a.CloseTab? then [a.url] else [];
      assert Opened(xs + ys) == o + (Opened(xs[1..]) + Opened(ys));
      assert o + (Opened(xs[1..]) + Opened(ys)) == (o + Opened(xs[1..])) + Opened(ys);
      assert Closed(xs + ys) == c + (Closed(xs[1..]) + Closed(ys));
      assert c + (Closed(xs[1..]) + Closed(ys)) == (c + Closed(xs[1..])) + Closed(ys);
    }
  }

  lemma {:induction false} OnlyOpensCloseNothing(actions: seq<Action>)
    requires forall j :: 0 <= j < |actions| ==> actions[j].OpenTab?
    ensures Closed(actions) == []
  {
    if actions != [] {
      OnlyOpensCloseNothing(actions[1..]);
    }
  }
}
