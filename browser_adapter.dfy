/**
 * The browser adapter of the URL workspace: the stored tabs are opened in
 * the browser, then on every tick the browser's pages are read, diffed
 * against the workspace, applied to it and published on the bus.
 */
module BrowserAdapter {
  import opened Wrappers
  import opened ActionBus
  import opened Outcomes
  import UW = UrlWorkspace

  /** The source tag of the actions this adapter publishes. */
  const BrowserSource := "browser"

  /** What asking one page for its URL gives: a URL, no URL, or an error. */
  datatype PageUrl = HasUrl(url: UW.Url) | NoUrl | UrlError(error: string)

  /** The error a page without a usable URL fails the snapshot with. */
  function Reason(page: PageUrl): string
    requires !page.HasUrl?
  {
    match page
    case NoUrl => "no_url"
    case UrlError(e) => e
  }

  /** The URLs of the pages, in page order, or the error of the first page without one. */
  function PageUrls(pages: seq<PageUrl>): Result<seq<UW.Url>, string>
  {
    if pages == [] then Success([])
    else
      var n := |pages| - 1;
      match PageUrls(pages[..n])
      case Failure(e) => Failure(e)
      case Success(urls) =>
        if pages[n].HasUrl? then Success(urls + [pages[n].url]) else Failure(Reason(pages[n]))
  }

  /**
   * `Workspace::from_browser`: the page list or the error listing the
   * pages failed with.
   */
  function Snapshot(pages: Result<seq<PageUrl>, string>): Result<seq<UW.Url>, string>
  {
    if pages.Failure? then Failure(pages.error) else PageUrls(pages.value)
  }

  lemma PageUrlsSnoc(pages: seq<PageUrl>, i: nat)
    requires i < |pages|
    ensures PageUrls(pages[..i + 1]) ==
      match PageUrls(pages[..i])
      case Failure(e) => Failure(e)
      case Success(urls) => if pages[i].HasUrl? then Success(urls + [pages[i].url]) else Failure(Reason(pages[i]))
  {
    assert pages[..i + 1][..i] == pages[..i];
  }

  /** Once a prefix of the pages fails, the whole snapshot fails with the same error. */
  lemma {:induction false} FailureSticks(pages: seq<PageUrl>, k: nat)
    requires k <= |pages| && PageUrls(pages[..k]).Failure?
    ensures PageUrls(pages) == PageUrls(pages[..k])
    decreases |pages| - k
  {
    if k < |pages| {
      PageUrlsSnoc(pages, k);
      FailureSticks(pages, k + 1);
    } else {
      assert pages[..k] == pages;
    }
  }

  /** The snapshot succeeds exactly when every page has a URL, and then lists them in page order. */
  lemma {:induction false} PageUrlsSuccess(pages: seq<PageUrl>)
    ensures PageUrls(pages).Success? <==> forall i :: 0 <= i < |pages| ==> pages[i].HasUrl?
    ensures PageUrls(pages).Success? ==>
      |PageUrls(pages).value| == |pages| &&
      forall i :: 0 <= i < |pages| ==> PageUrls(pages).value[i] == pages[i].url
    decreases |pages|
  {
    if pages != [] {
      var n := |pages| - 1;
      PageUrlsSuccess(pages[..n]);
      assert forall i :: 0 <= i < n ==> pages[..n][i] == pages[i];
    }
  }

  /** The error is that of the first page without a URL. */
  lemma {:induction false} FirstFailureReported(pages: seq<PageUrl>, i: nat)
    requires i < |pages| && !pages[i].HasUrl?
    requires forall j :: 0 <= j < i ==> pages[j].HasUrl?
    ensures PageUrls(pages) == Failure(Reason(pages[i]))
  {
    PageUrlsSuccess(pages[..i]);
    assert forall j :: 0 <= j < i ==> pages[..i][j] == pages[j];
    PageUrlsSnoc(pages, i);
    FailureSticks(pages, i + 1);
  }

  /** `from_browser` as the loop over the pages, stopping at the first failure. */
  method FromBrowser(pages: Result<seq<PageUrl>, string>) returns (r: Result<seq<UW.Url>, string>)
    ensures r == Snapshot(pages)
  {
    if pages.Failure? {
      return Failure(pages.error);
    }
    var tabs: seq<UW.Url> := [];
    for i := 0 to |pages.value|
      invariant PageUrls(pages.value[..i]) == Success(tabs)
    {
      PageUrlsSnoc(pages.value, i);
      match pages.value[i]
      case HasUrl(u) =>
        tabs := tabs + [u];
      case NoUrl =>
        FailureSticks(pages.value, i + 1);
        return Failure("no_url");
      case UrlError(e) =>
        FailureSticks(pages.value, i + 1);
        return Failure(e);
    }
    assert pages.value[..|pages.value|] == pages.value;
    r := Success(tabs);
  }

  /**
   * The connected browser, as the URLs of the pages opened through it, the
   * outcomes of its `new_page` requests and the number of requests made:
   * any request may fail, whatever the earlier ones did.
   */
  class Browser {
    var newPages: seq<UW.Url>
    const outcomes: seq<bool>
    var requests: nat

    constructor (outcomes: seq<bool>)
      ensures newPages == [] && this.outcomes == outcomes && requests == 0
    {
      newPages := [];
      this.outcomes := outcomes;
      requests := 0;
    }

    method NewPage(url: UW.Url) returns (ok: bool)
      modifies this
      ensures ok == Accepts(outcomes, old(requests))
      ensures requests == old(requests) + 1
      ensures newPages == if ok then old(newPages) + [url] else old(newPages)
    {
      ok := Accepts(outcomes, requests);
      if ok {
        newPages := newPages + [url];
      }
      requests := requests + 1;
    }
  }

  /**
   * Opens every stored tab, in stored order; the first failed request ends
   * the adapter, after the tabs before it were opened.
   */
  method OpenStoredTabs(ws: UW.Workspace, browser: Browser) returns (ok: bool)
    modifies browser
    ensures ok <==> AcceptsAll(browser.outcomes, old(browser.requests), old(browser.requests) + |ws.tabs|)
    ensures ok ==> browser.requests == old(browser.requests) + |ws.tabs|
    ensures ok ==> browser.newPages == old(browser.newPages) + ws.tabs
    ensures !ok ==> old(browser.requests) < browser.requests <= old(browser.requests) + |ws.tabs|
    ensures !ok ==> FirstRefusedSince(browser.outcomes, old(browser.requests), browser.requests - 1)
    ensures !ok ==>
      browser.newPages == old(browser.newPages) + ws.tabs[..browser.requests - 1 - old(browser.requests)]
  {
    var tabs := ws.tabs;
    for i := 0 to |tabs|
      invariant browser.requests == old(browser.requests) + i
      invariant AcceptsAll(browser.outcomes, old(browser.requests), browser.requests)
      invariant browser.newPages == old(browser.newPages) + tabs[..i]
    {
      var done := browser.NewPage(tabs[i]);
      if !done {
        RefusedBreaks(browser.outcomes, old(browser.requests), browser.requests - 1,
                      old(browser.requests) + |tabs|);
        return false;
      }
      assert tabs[..i + 1] == tabs[..i] + [tabs[i]];
    }
    assert tabs[..|tabs|] == tabs;
    ok := true;
  }

  datatype TickOutcome = Continue | SnapshotFailed(error: string) | SendFailed

  /**
   * What applying and publishing `actions` one by one does, from the
   * workspace `tabs0` and the log `log0`, when the sends are numbered from
   * `from` and the first refused one ends the run with `ok` false: `sends`
   * is the number of the next send, `tabs` the new workspace and `log` the
   * new log. Every action is applied and published when every send
   * succeeds; otherwise the actions up to and including the one whose send
   * was refused are applied, and the ones before it published.
   * `RunOkExactly` shows that `ok` holds exactly when every send succeeds.
   */
  ghost predicate PublishedRun(outcomes: seq<bool>, from: nat, actions: seq<UW.Action>,
                               tabs0: seq<UW.Url>, log0: seq<Envelope<UW.Action>>,
                               ok: bool, sends: nat, tabs: seq<UW.Url>, log: seq<Envelope<UW.Action>>)
  {
    (ok ==>
      sends == from + |actions| && AcceptsAll(outcomes, from, sends) &&
      tabs == UW.ApplyAll(tabs0, actions) &&
      log == log0 + Tagged(BrowserSource, actions)) &&
    (!ok ==>
      from < sends <= from + |actions| && FirstRefusedSince(outcomes, from, sends - 1) &&
      tabs == UW.ApplyAll(tabs0, actions[..sends - from]) &&
      log == log0 + Tagged(BrowserSource, actions[..sends - 1 - from]))
  }

  /** A run ends without a refusal exactly when every one of its sends is accepted. */
  lemma RunOkExactly(outcomes: seq<bool>, from: nat, actions: seq<UW.Action>,
                     tabs0: seq<UW.Url>, log0: seq<Envelope<UW.Action>>,
                     ok: bool, sends: nat, tabs: seq<UW.Url>, log: seq<Envelope<UW.Action>>)
    requires PublishedRun(outcomes, from, actions, tabs0, log0, ok, sends, tabs, log)
    ensures ok <==> AcceptsAll(outcomes, from, from + |actions|)
  {
    if !ok {
      RefusedBreaks(outcomes, from, sends - 1, from + |actions|);
    }
  }

  /** A run whose every send succeeds. */
  lemma RunAccepted(outcomes: seq<bool>, from: nat, actions: seq<UW.Action>,
                    tabs0: seq<UW.Url>, log0: seq<Envelope<UW.Action>>,
                    sends: nat, tabs: seq<UW.Url>, log: seq<Envelope<UW.Action>>)
    requires sends == from + |actions| && AcceptsAll(outcomes, from, sends)
    requires tabs == UW.ApplyAll(tabs0, actions[..|actions|])
    requires log == log0 + Tagged(BrowserSource, actions[..|actions|])
    ensures PublishedRun(outcomes, from, actions, tabs0, log0, true, sends, tabs, log)
  {
    assert actions[..|actions|] == actions;
  }

  /** A run ended by the refused send of action `j`. */
  lemma RunRefused(outcomes: seq<bool>, from: nat, actions: seq<UW.Action>,
                   tabs0: seq<UW.Url>, log0: seq<Envelope<UW.Action>>,
                   j: nat, sends: nat, tabs: seq<UW.Url>, log: seq<Envelope<UW.Action>>)
    requires j < |actions| && AcceptsAll(outcomes, from, from + j) && !Accepts(outcomes, from + j)
    requires sends == from + j + 1
    requires tabs == UW.ApplyAll(tabs0, actions[..j + 1])
    requires log == log0 + Tagged(BrowserSource, actions[..j])
    ensures PublishedRun(outcomes, from, actions, tabs0, log0, false, sends, tabs, log)
  {
  }

  /**
   * Applies each action and publishes it tagged "browser", in order; the
   * first refused send ends the loop after the action it carried was
   * applied.
   */
  method ApplyAndPublish(ws: UW.Workspace, bus: Bus<UW.Action>, actions: seq<UW.Action>) returns (ok: bool)
    modifies ws, bus
    ensures PublishedRun(bus.outcomes, old(bus.sends), actions, old(ws.tabs), old(bus.published),
                         ok, bus.sends, ws.tabs, bus.published)
  {
    for j := 0 to |actions|
      invariant bus.sends == old(bus.sends) + j
      invariant AcceptsAll(bus.outcomes, old(bus.sends), bus.sends)
      invariant ws.tabs == UW.ApplyAll(old(ws.tabs), actions[..j])
      invariant bus.published == old(bus.published) + Tagged(BrowserSource, actions[..j])
    {
      TaggedLogSnoc(old(bus.published), BrowserSource, actions, j);
      ghost var before := ws.tabs;
      var sent := ApplyAndSend(ws, bus, actions[j]);
      UW.ApplyAllStep(old(ws.tabs), actions, j, before, ws.tabs);
      if !sent {
        RunRefused(bus.outcomes, old(bus.sends), actions, old(ws.tabs), old(bus.published),
                   j, bus.sends, ws.tabs, bus.published);
        return false;
      }
    }
    RunAccepted(bus.outcomes, old(bus.sends), actions, old(ws.tabs), old(bus.published),
                bus.sends, ws.tabs, bus.published);
    ok := true;
  }

  /** One action: applied to the workspace, then sent tagged "browser". */
  method ApplyAndSend(ws: UW.Workspace, bus: Bus<UW.Action>, action: UW.Action) returns (sent: bool)
    modifies ws, bus
    ensures sent == Accepts(bus.outcomes, old(bus.sends))
    ensures bus.sends == old(bus.sends) + 1
    ensures ws.tabs == UW.Applied(old(ws.tabs), action)
    ensures sent ==> bus.published == old(bus.published) + [Envelope(BrowserSource, action)]
    ensures !sent ==> bus.published == old(bus.published)
  {
    ws.ApplyAction(action);
    sent := bus.Send(Envelope(BrowserSource, action));
  }

  /**
   * The body of a tick under the workspace's write lock: the diff from the
   * workspace to `target` is computed, then applied and published.
   */
  method Sync(ws: UW.Workspace, bus: Bus<UW.Action>, target: seq<UW.Url>)
    returns (ok: bool, actions: seq<UW.Action>)
    modifies ws, bus
    ensures UW.IsDiff(old(ws.tabs), target, actions)
    ensures PublishedRun(bus.outcomes, old(bus.sends), actions, old(ws.tabs), old(bus.published),
                         ok, bus.sends, ws.tabs, bus.published)
    ensures ok ==> multiset(ws.tabs) == multiset(target)
    ensures multiset(old(ws.tabs)) == multiset(target) ==>
      ok && actions == [] && ws.tabs == old(ws.tabs) && bus.published == old(bus.published) &&
      bus.sends == old(bus.sends)
  {
    var current := new UW.Workspace(target);
    actions := ws.ActionsFromDiff(current);
    ghost var before := ws.tabs;
    if multiset(before) == multiset(target) {
      UW.DiffOfReorderingIsEmpty(before, target, actions);
    }
    ok := ApplyAndPublish(ws, bus, actions);
    if ok {
      UW.Convergence(before, target, actions);
    }
  }

  /**
   * One tick of the poll loop: the browser's pages are read, and the
   * actions of the diff from the workspace to them are applied and
   * published. `pages` is what the browser reports at this tick.
   */
  method Tick(ws: UW.Workspace, bus: Bus<UW.Action>, pages: Result<seq<PageUrl>, string>)
    returns (outcome: TickOutcome, actions: seq<UW.Action>)
    modifies ws, bus
    ensures outcome.SnapshotFailed? <==> Snapshot(pages).Failure?
    ensures Snapshot(pages).Failure? ==>
      outcome == SnapshotFailed(Snapshot(pages).error) && actions == [] && ws.tabs == old(ws.tabs) &&
      bus.published == old(bus.published) && bus.sends == old(bus.sends)
    ensures Snapshot(pages).Success? ==>
      UW.IsDiff(old(ws.tabs), Snapshot(pages).value, actions) &&
      PublishedRun(bus.outcomes, old(bus.sends), actions, old(ws.tabs), old(bus.published),
                   outcome.Continue?, bus.sends, ws.tabs, bus.published)
    ensures outcome.Continue? ==> multiset(ws.tabs) == multiset(Snapshot(pages).value)
    ensures Snapshot(pages).Success? && multiset(old(ws.tabs)) == multiset(Snapshot(pages).value) ==>
      outcome.Continue? && actions == [] && ws.tabs == old(ws.tabs) && bus.published == old(bus.published)
  {
    var snapshot := FromBrowser(pages);
    if snapshot.Failure? {
      return SnapshotFailed(snapshot.error), [];
    }
    var ok;
    ok, actions := Sync(ws, bus, snapshot.value);
    outcome := if ok then Continue else SendFailed;
  }

  /**
   * The ticks of a finite run of polls, until one fails; gives the failing
   * tick's outcome: the first failed snapshot, or the first refused send.
   */
  method PollLoop(ws: UW.Workspace, bus: Bus<UW.Action>, polls: seq<Result<seq<PageUrl>, string>>)
    returns (stop: Option<TickOutcome>)
    modifies ws, bus
    ensures stop.Some? ==> !stop.value.Continue?
    ensures stop.None? ==> forall k :: 0 <= k < |polls| ==> Snapshot(polls[k]).Success?
    ensures stop.None? && polls != [] ==>
      multiset(ws.tabs) == multiset(Snapshot(polls[|polls| - 1]).value)
    ensures stop.Some? && stop.value.SnapshotFailed? ==>
      exists k :: 0 <= k < |polls| && Snapshot(polls[k]) == Failure(stop.value.error) &&
                  forall j :: 0 <= j < k ==> Snapshot(polls[j]).Success?
    ensures stop == Some(SendFailed) ==>
      old(bus.sends) < bus.sends && FirstRefusedSince(bus.outcomes, old(bus.sends), bus.sends - 1)
    ensures stop != Some(SendFailed) ==> AcceptsAll(bus.outcomes, old(bus.sends), bus.sends)
  {
    for i := 0 to |polls|
      invariant forall k :: 0 <= k < i ==> Snapshot(polls[k]).Success?
      invariant i > 0 ==> multiset(ws.tabs) == multiset(Snapshot(polls[i - 1]).value)
      invariant old(bus.sends) <= bus.sends
      invariant AcceptsAll(bus.outcomes, old(bus.sends), bus.sends)
    {
      ghost var start := bus.sends;
      var tick := Poll(ws, bus, polls[i]);
      match tick
      case SnapshotFailed(e) =>
        return Some(tick);
      case SendFailed =>
        FirstRefusedAfter(bus.outcomes, old(bus.sends), start, bus.sends - 1);
        return Some(tick);
      case Continue =>
        AcceptsAllThen(bus.outcomes, old(bus.sends), start, bus.sends);
    }
    stop := None;
  }

  /** A tick, with only what the poll loop needs to know of it. */
  method Poll(ws: UW.Workspace, bus: Bus<UW.Action>, pages: Result<seq<PageUrl>, string>)
    returns (outcome: TickOutcome)
    modifies ws, bus
    ensures outcome.SnapshotFailed? <==> Snapshot(pages).Failure?
    ensures outcome.SnapshotFailed? ==> Snapshot(pages) == Failure(outcome.error) && bus.sends == old(bus.sends)
    ensures outcome.Continue? ==>
      multiset(ws.tabs) == multiset(Snapshot(pages).value) &&
      old(bus.sends) <= bus.sends && AcceptsAll(bus.outcomes, old(bus.sends), bus.sends)
    ensures outcome.SendFailed? ==>
      old(bus.sends) < bus.sends && FirstRefusedSince(bus.outcomes, old(bus.sends), bus.sends - 1)
  {
    var actions;
    outcome, actions := Tick(ws, bus, pages);
  }

  datatype RunOutcome = Running | OpenFailed | Stopped(reason: TickOutcome)

  /**
   * `start_browser_inner` after the browser is connected, over the page
   * lists of a finite run of ticks: the stored tabs are opened, then the
   * ticks run until one fails.
   */
  method StartBrowserInner(ws: UW.Workspace, bus: Bus<UW.Action>, browser: Browser,
                           polls: seq<Result<seq<PageUrl>, string>>) returns (outcome: RunOutcome)
    modifies ws, bus, browser
    ensures !outcome.OpenFailed? <==>
      AcceptsAll(browser.outcomes, old(browser.requests), old(browser.requests) + |old(ws.tabs)|)
    ensures !outcome.OpenFailed? ==> browser.newPages == old(browser.newPages) + old(ws.tabs)
    ensures outcome.OpenFailed? ==>
      ws.tabs == old(ws.tabs) && bus.published == old(bus.published) && bus.sends == old(bus.sends)
    ensures outcome.OpenFailed? ==>
      old(browser.requests) < browser.requests <= old(browser.requests) + |old(ws.tabs)| &&
      FirstRefusedSince(browser.outcomes, old(browser.requests), browser.requests - 1)
    ensures outcome.OpenFailed? ==>
      browser.newPages == old(browser.newPages) + old(ws.tabs)[..browser.requests - 1 - old(browser.requests)]
    ensures outcome.Stopped? ==> !outcome.reason.Continue?
    ensures outcome.Running? ==> forall k :: 0 <= k < |polls| ==> Snapshot(polls[k]).Success?
    ensures outcome.Running? && polls != [] ==>
      multiset(ws.tabs) == multiset(Snapshot(polls[|polls| - 1]).value)
    ensures outcome.Stopped? && outcome.reason.SnapshotFailed? ==>
      exists k :: 0 <= k < |polls| && Snapshot(polls[k]) == Failure(outcome.reason.error) &&
                  forall j :: 0 <= j < k ==> Snapshot(polls[j]).Success?
    ensures outcome == Stopped(SendFailed) ==>
      old(bus.sends) < bus.sends && FirstRefusedSince(bus.outcomes, old(bus.sends), bus.sends - 1)
    ensures outcome != Stopped(SendFailed) ==> AcceptsAll(bus.outcomes, old(bus.sends), bus.sends)
  {
    var done := OpenStoredTabs(ws, browser);
    if !done {
      return OpenFailed;
    }
    var stop := PollLoop(ws, bus, polls);
    outcome := if stop.None? then Running else Stopped(stop.value);
  }
}
