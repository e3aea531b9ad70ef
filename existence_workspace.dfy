/**
 * The existence-only workspace: a workspace is a list of tabs, each
 * holding a URL, and the diff between two workspaces only asks whether a
 * URL occurs at all, never how often.
 */
module ExistenceWorkspace {
  import opened Wrappers

  type Url = string

  datatype Tab = Tab(url: Url)

  datatype Action = OpenTab(url: Url) | CloseTab(url: Url)

  /** The set of URLs held by some tab of `tabs`. */
  function Urls(tabs: seq<Tab>): set<Url>
  {
    set t | t in tabs :: t.url
  }

  /** A tab is nothing but its URL, so holding the URL is holding that tab. */
  lemma UrlsMember(tabs: seq<Tab>, u: Url)
    ensures u in Urls(tabs) <==> Tab(u) in tabs
  {
    if u in Urls(tabs) {
      var t :| t in tabs && t.url == u;
      assert t == Tab(u);
    }
  }

  lemma UrlsConcat(xs: seq<Tab>, ys: seq<Tab>)
    ensures Urls(xs + ys) == Urls(xs) + Urls(ys)
  {
    forall u ensures u in Urls(xs + ys) <==> u in Urls(xs) + Urls(ys) {
      UrlsMember(xs + ys, u);
      UrlsMember(xs, u);
      UrlsMember(ys, u);
    }
  }

  /** The first tab whose URL is `url`, if any (iterator `find`). */
  function First(tabs: seq<Tab>, url: Url): (r: Option<Tab>)
    ensures r.Some? <==> url in Urls(tabs)
    ensures r.Some? ==> r.value in tabs && r.value.url == url
  {
    UrlsMember(tabs, url);
    if tabs == [] then None
    else if tabs[0].url == url then Some(tabs[0])
    else
      UrlsMember(tabs[1..], url);
      assert Tab(url) in tabs ==> Tab(url) in tabs[1..] by {
        if Tab(url) in tabs {
          var i :| 0 <= i < |tabs| && tabs[i] == Tab(url);
          assert i != 0 && tabs[1..][i - 1] == Tab(url);
        }
      }
      First(tabs[1..], url)
  }

  /**
   * `tabs` with every tab whose URL is `u` removed and the others kept in
   * order (`retain(|tab| tab.url != u)`).
   */
  function Without(tabs: seq<Tab>, u: Url): seq<Tab>
  {
    if tabs == [] then []
    else
      var last := tabs[|tabs| - 1];
      Without(tabs[..|tabs| - 1], u) + (if last.url == u then [] else [last])
  }

  /**
   * The tabs of `xs` whose URL occurs nowhere in `ys`, in the order of
   * `xs` and with their repetitions (the `filter` over `find_tab`).
   */
  function Missing(xs: seq<Tab>, ys: seq<Tab>): seq<Tab>
  {
    if xs == [] then []
    else
      var last := xs[|xs| - 1];
      Missing(xs[..|xs| - 1], ys) + (if last.url in Urls(ys) then [] else [last])
  }

  /** Without drops every copy of the tabs with URL `u` and keeps every copy of the others. */
  lemma {:induction false} WithoutCount(tabs: seq<Tab>, u: Url, t: Tab)
    ensures multiset(Without(tabs, u))[t] == if t.url == u then 0 else multiset(tabs)[t]
    decreases |tabs|
  {
    if tabs != [] {
      var init := tabs[..|tabs| - 1];
      WithoutCount(init, u, t);
      assert tabs == init + [tabs[|tabs| - 1]];
    }
  }

  /** Removing a URL no tab holds changes nothing. */
  lemma {:induction false} WithoutAbsent(tabs: seq<Tab>, u: Url)
    requires u !in Urls(tabs)
    ensures Without(tabs, u) == tabs
    decreases |tabs|
  {
    if tabs != [] {
      var init := tabs[..|tabs| - 1];
      assert tabs == init + [tabs[|tabs| - 1]];
      UrlsConcat(init, [tabs[|tabs| - 1]]);
      WithoutAbsent(init, u);
    }
  }

  /** Missing keeps every copy of the tabs whose URL `ys` lacks and drops the others. */
  lemma {:induction false} MissingCount(xs: seq<Tab>, ys: seq<Tab>, t: Tab)
    ensures multiset(Missing(xs, ys))[t] == if t.url in Urls(ys) then 0 else multiset(xs)[t]
    decreases |xs|
  {
    if xs != [] {
      var init := xs[..|xs| - 1];
      MissingCount(init, ys, t);
      assert xs == init + [xs[|xs| - 1]];
    }
  }

  /** Without and Missing are filters: they distribute over concatenation, so they keep order. */
  lemma {:induction false} FiltersConcat(xs: seq<Tab>, zs: seq<Tab>, ys: seq<Tab>, u: Url)
    ensures Missing(xs + zs, ys) == Missing(xs, ys) + Missing(zs, ys)
    ensures Without(xs + zs, u) == Without(xs, u) + Without(zs, u)
    decreases |zs|
  {
    if zs != [] {
      var init, last := zs[..|zs| - 1], zs[|zs| - 1];
      assert (xs + zs)[..|xs + zs| - 1] == xs + init;
      assert (xs + zs)[|xs + zs| - 1] == last;
      FiltersConcat(xs, init, ys, u);
    } else {
      assert xs + zs == xs;
    }
  }

  /** One OpenTab per tab, in order. */
  function OpenEach(tabs: seq<Tab>): seq<Action>
  {
    if tabs == [] then [] else OpenEach(tabs[..|tabs| - 1]) + [OpenTab(tabs[|tabs| - 1].url)]
  }

  /** One CloseTab per tab, in order. */
  function CloseEach(tabs: seq<Tab>): seq<Action>
  {
    if tabs == [] then [] else CloseEach(tabs[..|tabs| - 1]) + [CloseTab(tabs[|tabs| - 1].url)]
  }

  /**
   * What `actions_from_diff(current, target)` returns: an OpenTab for each
   * target tab whose URL current lacks, in target order, then a CloseTab
   * for each current tab whose URL target lacks, in current order.
   */
  function Diff(current: seq<Tab>, target: seq<Tab>): seq<Action>
  {
    OpenEach(Missing(target, current)) + CloseEach(Missing(current, target))
  }

  /** The tab list after one action: OpenTab appends, CloseTab removes every tab with that URL. */
  function Applied(tabs: seq<Tab>, action: Action): (r: seq<Tab>)
    ensures action.OpenTab? ==> r == tabs + [Tab(action.url)]
    ensures action.CloseTab? ==> Urls(r) == Urls(tabs) - {action.url}
    ensures action.CloseTab? && action.url !in Urls(tabs) ==> r == tabs
  {
    match action
    case OpenTab(u) => tabs + [Tab(u)]
    case CloseTab(u) =>
      var r := Without(tabs, u);
      forall v ensures v in Urls(r) <==> v in Urls(tabs) - {u} {
        UrlsMember(r, v);
        UrlsMember(tabs, v);
        WithoutCount(tabs, u, Tab(v));
      }
      if u in Urls(tabs) then r
      else
        WithoutAbsent(tabs, u);
        r
  }

  function ApplyAll(tabs: seq<Tab>, actions: seq<Action>): seq<Tab>
    decreases actions
  {
    if actions == [] then tabs else ApplyAll(Applied(tabs, actions[0]), actions[1..])
  }

  lemma {:induction false} ApplyAllConcat(tabs: seq<Tab>, xs: seq<Action>, ys: seq<Action>)
    ensures ApplyAll(tabs, xs + ys) == ApplyAll(ApplyAll(tabs, xs), ys)
    decreases xs
  {
    if xs == [] {
      assert xs + ys == ys;
    } else {
      assert (xs + ys)[1..] == xs[1..] + ys;
      ApplyAllConcat(Applied(tabs, xs[0]), xs[1..], ys);
    }
  }

  lemma ApplyAllSnoc(tabs: seq<Tab>, actions: seq<Action>, a: Action)
    ensures ApplyAll(tabs, actions + [a]) == Applied(ApplyAll(tabs, actions), a)
  {
    ApplyAllConcat(tabs, actions, [a]);
    assert [a][1..] == [];
  }

  /** Applying the OpenTabs of some tabs appends those tabs. */
  lemma {:induction false} ApplyOpens(tabs: seq<Tab>, added: seq<Tab>)
    ensures ApplyAll(tabs, OpenEach(added)) == tabs + added
    decreases |added|
  {
    if added != [] {
      var init, last := added[..|added| - 1], added[|added| - 1];
      ApplyOpens(tabs, init);
      ApplyAllConcat(tabs, OpenEach(init), [OpenTab(last.url)]);
      assert [OpenTab(last.url)][1..] == [];
      assert tabs + added == (tabs + init) + [last];
    }
  }

  /** Applying the CloseTabs of some tabs removes exactly their URLs. */
  lemma {:induction false} ApplyCloses(tabs: seq<Tab>, removed: seq<Tab>)
    ensures Urls(ApplyAll(tabs, CloseEach(removed))) == Urls(tabs) - Urls(removed)
    decreases |removed|
  {
    if removed != [] {
      var init, last := removed[..|removed| - 1], removed[|removed| - 1];
      ApplyCloses(tabs, init);
      var mid := ApplyAll(tabs, CloseEach(init));
      ApplyAllSnoc(tabs, CloseEach(init), CloseTab(last.url));
      assert removed == init + [last];
      UrlsConcat(init, [last]);
      CloseOneMore(Urls(tabs), Urls(init), mid, last);
    }
  }

  /** The URL-set step of one more close. */
  lemma CloseOneMore(all: set<Url>, gone: set<Url>, mid: seq<Tab>, last: Tab)
    requires Urls(mid) == all - gone
    ensures Urls(Applied(mid, CloseTab(last.url))) == all - (gone + Urls([last]))
  {
    assert Urls([last]) == {last.url};
  }

  /** The URLs of Missing(xs, ys) are those of xs that ys lacks. */
  lemma MissingUrls(xs: seq<Tab>, ys: seq<Tab>)
    ensures Urls(Missing(xs, ys)) == Urls(xs) - Urls(ys)
  {
    var m := Missing(xs, ys);
    forall u ensures u in Urls(m) <==> u in Urls(xs) - Urls(ys) {
      UrlsMember(m, u);
      UrlsMember(xs, u);
      MissingCount(xs, ys, Tab(u));
    }
  }

  /**
   * Convergence on URL sets: after the diff of current against target is
   * applied to current, the workspace holds exactly target's URLs.
   */
  lemma Convergence(current: seq<Tab>, target: seq<Tab>)
    ensures Urls(ApplyAll(current, Diff(current, target))) == Urls(target)
  {
    var opens, closes := Missing(target, current), Missing(current, target);
    ApplyAllConcat(current, OpenEach(opens), CloseEach(closes));
    ApplyOpens(current, opens);
    ApplyCloses(current + opens, closes);
    UrlsConcat(current, opens);
    MissingUrls(target, current);
    MissingUrls(current, target);
  }

  /** Nothing is missing from a list that every URL of it is in. */
  lemma MissingNone(xs: seq<Tab>, ys: seq<Tab>)
    requires Urls(xs) <= Urls(ys)
    ensures Missing(xs, ys) == []
  {
    var m := Missing(xs, ys);
    if m != [] {
      var t := m[0];
      assert multiset(m)[t] > 0;
      MissingCount(xs, ys, t);
      UrlsMember(xs, t.url);
    }
  }

  /** Against an empty list nothing is present, so every tab is missing. */
  lemma {:induction false} MissingFromEmpty(xs: seq<Tab>)
    ensures Missing(xs, []) == xs
    decreases |xs|
  {
    if xs != [] {
      MissingFromEmpty(xs[..|xs| - 1]);
      assert Urls([]) == {};
      assert xs == xs[..|xs| - 1] + [xs[|xs| - 1]];
    }
  }

  /** A workspace diffed against itself yields no action. */
  lemma DiffOfSelfIsEmpty(w: seq<Tab>)
    ensures Diff(w, w) == []
  {
    MissingNone(w, w);
  }

  /**
   * The diff never names a URL present in both workspaces, whatever its
   * counts; it opens each target tab whose URL current lacks, with its
   * repetitions, and closes each current tab whose URL target lacks.
   */
  lemma DiffCounts(current: seq<Tab>, target: seq<Tab>, u: Url)
    ensures multiset(Diff(current, target))[OpenTab(u)] ==
      if u in Urls(current) then 0 else multiset(target)[Tab(u)]
    ensures multiset(Diff(current, target))[CloseTab(u)] ==
      if u in Urls(target) then 0 else multiset(current)[Tab(u)]
  {
    var opens, closes := Missing(target, current), Missing(current, target);
    assert multiset(Diff(current, target)) == multiset(OpenEach(opens)) + multiset(CloseEach(closes));
    OpenEachCount(opens, u);
    CloseEachCount(closes, u);
    MissingCount(target, current, Tab(u));
    MissingCount(current, target, Tab(u));
    UrlsMember(current, u);
    UrlsMember(target, u);
  }

  lemma {:induction false} OpenEachCount(tabs: seq<Tab>, u: Url)
    ensures multiset(OpenEach(tabs))[OpenTab(u)] == multiset(tabs)[Tab(u)]
    ensures multiset(OpenEach(tabs))[CloseTab(u)] == 0
    decreases |tabs|
  {
    if tabs != [] {
      var init := tabs[..|tabs| - 1];
      OpenEachCount(init, u);
      assert tabs == init + [tabs[|tabs| - 1]];
    }
  }

  lemma {:induction false} CloseEachCount(tabs: seq<Tab>, u: Url)
    ensures multiset(CloseEach(tabs))[CloseTab(u)] == multiset(tabs)[Tab(u)]
    ensures multiset(CloseEach(tabs))[OpenTab(u)] == 0
    decreases |tabs|
  {
    if tabs != [] {
      var init := tabs[..|tabs| - 1];
      CloseEachCount(init, u);
      assert tabs == init + [tabs[|tabs| - 1]];
    }
  }

  /** One more element of `xs` considered by the filter. */
  lemma MissingSnoc(xs: seq<Tab>, i: nat, ys: seq<Tab>)
    requires i < |xs|
    ensures Missing(xs[..i + 1], ys) ==
      Missing(xs[..i], ys) + (if xs[i].url in Urls(ys) then [] else [xs[i]])
  {
    var pre := xs[..i + 1];
    assert pre[..|pre| - 1] == xs[..i];
  }

  lemma OpenEachSnoc(tabs: seq<Tab>, t: Tab)
    ensures OpenEach(tabs + [t]) == OpenEach(tabs) + [OpenTab(t.url)]
  {
    assert (tabs + [t])[..|tabs|] == tabs;
  }

  lemma CloseEachSnoc(tabs: seq<Tab>, t: Tab)
    ensures CloseEach(tabs + [t]) == CloseEach(tabs) + [CloseTab(t.url)]
  {
    assert (tabs + [t])[..|tabs|] == tabs;
  }

  /** One tab of `a` against two: the URL is in both, so nothing happens. */
  lemma OneAgainstTwo(a: Url)
    ensures Diff([Tab(a)], [Tab(a), Tab(a)]) == []
  {
    assert Urls([Tab(a), Tab(a)]) == {a} == Urls([Tab(a)]) by {
      UrlsMember([Tab(a), Tab(a)], a);
      UrlsMember([Tab(a)], a);
    }
    MissingNone([Tab(a)], [Tab(a), Tab(a)]);
    MissingNone([Tab(a), Tab(a)], [Tab(a)]);
  }

  /** A target that repeats a URL the current workspace lacks opens it once per repetition. */
  lemma DuplicateOpens(a: Url)
    ensures Diff([], [Tab(a), Tab(a)]) == [OpenTab(a), OpenTab(a)]
  {
    var one, two := [Tab(a)], [Tab(a), Tab(a)];
    assert Urls([]) == {};
    MissingNone([], two);
    assert one[..0] == [] && two[..1] == one;
    assert Missing(one, []) == one;
    assert Missing(two, []) == two;
    assert OpenEach(one) == [OpenTab(a)];
    assert OpenEach(two) == [OpenTab(a), OpenTab(a)];
  }

  /** The workspace of `cli/src/model2.rs`, whose tab list is changed in place. */
  class Workspace {
    var tabs: seq<Tab>

    constructor (tabs: seq<Tab>)
      ensures this.tabs == tabs
    {
      this.tabs := tabs;
    }

    /** The first tab whose URL is `url`, if any. */
    function FindTab(url: Url): (r: Option<Tab>)
      reads this
      ensures r.Some? <==> url in Urls(tabs)
      ensures r.Some? ==> r.value == Tab(url)
    {
      First(tabs, url)
    }

    method ApplyAction(action: Action)
      modifies this
      ensures tabs == Applied(old(tabs), action)
    {
      match action
      case OpenTab(u) =>
        tabs := tabs + [Tab(u)];
      case CloseTab(u) =>
        tabs := Without(tabs, u);
    }

    /**
     * The actions that turn this workspace's URL set into `workspace`'s:
     * the OpenTabs first, in `workspace`'s order, then the CloseTabs, in
     * this workspace's order.
     */
    method ActionsFromDiff(workspace: Workspace) returns (actions: seq<Action>)
      ensures actions == Diff(tabs, workspace.tabs)
    {
      actions := OpensOfMissing(workspace);
      actions := ClosesOfMissing(workspace, actions);
    }

    /** The first loop: an OpenTab for every tab of `workspace` whose URL this workspace lacks. */
    method OpensOfMissing(workspace: Workspace) returns (actions: seq<Action>)
      ensures actions == OpenEach(Missing(workspace.tabs, tabs))
    {
      actions := [];
      var theyHave := workspace.tabs;
      for i := 0 to |theyHave|
        invariant actions == OpenEach(Missing(theyHave[..i], tabs))
      {
        var tab := theyHave[i];
        MissingSnoc(theyHave, i, tabs);
        if FindTab(tab.url).None? {
          OpenEachSnoc(Missing(theyHave[..i], tabs), tab);
          actions := actions + [OpenTab(tab.url)];
        } else {
          assert Missing(theyHave[..i + 1], tabs) == Missing(theyHave[..i], tabs);
        }
      }
      assert theyHave[..|theyHave|] == theyHave;
    }

    /** The second loop: a CloseTab, after `opens`, for every tab here whose URL `workspace` lacks. */
    method ClosesOfMissing(workspace: Workspace, opens: seq<Action>) returns (actions: seq<Action>)
      ensures actions == opens + CloseEach(Missing(tabs, workspace.tabs))
    {
      actions := opens;
      for i := 0 to |tabs|
        invariant actions == opens + CloseEach(Missing(tabs[..i], workspace.tabs))
      {
        var tab := tabs[i];
        MissingSnoc(tabs, i, workspace.tabs);
        if workspace.FindTab(tab.url).None? {
          CloseEachSnoc(Missing(tabs[..i], workspace.tabs), tab);
          actions := actions + [CloseTab(tab.url)];
        } else {
          assert Missing(tabs[..i + 1], workspace.tabs) == Missing(tabs[..i], workspace.tabs);
        }
      }
      assert tabs[..|tabs|] == tabs;
    }
  }
}
