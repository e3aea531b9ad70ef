/**
 * The browser loop of the command-line daemon: the same snapshot, opening
 * of stored tabs and diff as the browser adapter, but every tick only
 * applies the diff to the workspace and publishes nothing.
 */
module CliBrowser {
  import opened Wrappers
  import opened Outcomes
  import UW = UrlWorkspace
  import BA = BrowserAdapter

  /** Applies the actions to the workspace, in order. */
  method ApplyEach(ws: UW.Workspace, actions: seq<UW.Action>)
    modifies ws
    ensures ws.tabs == UW.ApplyAll(old(ws.tabs), actions)
  {
    for j := 0 to |actions|
      invariant ws.tabs == UW.ApplyAll(old(ws.tabs), actions[..j])
    {
      ghost var before := ws.tabs;
      ws.ApplyAction(actions[j]);
      UW.ApplyAllStep(old(ws.tabs), actions, j, before, ws.tabs);
    }
    assert actions[..|actions|] == actions;
  }

  /**
   * The body of a tick under the workspace's write lock: the diff from the
   * workspace to `target` is computed and applied.
   */
  method Sync(ws: UW.Workspace, target: seq<UW.Url>) returns (actions: seq<UW.Action>)
    modifies ws
    ensures UW.IsDiff(old(ws.tabs), target, actions)
    ensures ws.tabs == UW.ApplyAll(old(ws.tabs), actions)
    ensures multiset(ws.tabs) == multiset(target)
  {
    var current := new UW.Workspace(target);
    actions := ws.ActionsFromDiff(current);
    ghost var before := ws.tabs;
    ApplyEach(ws, actions);
    UW.Convergence(before, target, actions);
  }

  /**
   * One tick of the poll loop: read the pages, diff the workspace against
   * them and apply the diff. Only the workspace changes.
   */
  method Tick(ws: UW.Workspace, pages: Result<seq<BA.PageUrl>, string>)
    returns (r: Result<seq<UW.Action>, string>)
    modifies ws
    ensures BA.Snapshot(pages).Failure? ==> r == Failure(BA.Snapshot(pages).error) && ws.tabs == old(ws.tabs)
    ensures BA.Snapshot(pages).Success? ==> r.Success?
    ensures r.Success? ==> ws.tabs == UW.ApplyAll(old(ws.tabs), r.value)
    ensures r.Success? ==> multiset(ws.tabs) == multiset(BA.Snapshot(pages).value)
  {
    var snapshot := BA.FromBrowser(pages);
    if snapshot.Failure? {
      return Failure(snapshot.error);
    }
    var actions := Sync(ws, snapshot.value);
    r := Success(actions);
  }

  /** The ticks of a finite run of polls, until a snapshot fails; gives that failure's error. */
  method PollLoop(ws: UW.Workspace, polls: seq<Result<seq<BA.PageUrl>, string>>) returns (failure: Option<string>)
    modifies ws
    ensures failure.None? ==> forall k :: 0 <= k < |polls| ==> BA.Snapshot(polls[k]).Success?
    ensures failure.None? && polls != [] ==>
      multiset(ws.tabs) == multiset(BA.Snapshot(polls[|polls| - 1]).value)
    ensures failure.Some? ==>
      exists k :: 0 <= k < |polls| && BA.Snapshot(polls[k]) == Failure(failure.value) &&
                  forall j :: 0 <= j < k ==> BA.Snapshot(polls[j]).Success?
  {
    for i := 0 to |polls|
      invariant forall k :: 0 <= k < i ==> BA.Snapshot(polls[k]).Success?
      invariant i > 0 ==> multiset(ws.tabs) == multiset(BA.Snapshot(polls[i - 1]).value)
    {
      var tick := Tick(ws, polls[i]);
      if tick.Failure? {
        assert BA.Snapshot(polls[i]) == Failure(tick.error);
        return Some(tick.error);
      }
    }
    failure := None;
  }

  datatype RunOutcome = Running | OpenFailed | SnapshotFailed(error: string)

  /**
   * `start_browser` after the browser is connected, over the page lists of
   * a finite run of ticks: the stored tabs are opened, then the ticks run
   * until a snapshot fails.
   */
  method StartBrowser(ws: UW.Workspace, browser: BA.Browser, polls: seq<Result<seq<BA.PageUrl>, string>>)
    returns (outcome: RunOutcome)
    modifies ws, browser
    ensures !outcome.OpenFailed? <==>
      AcceptsAll(browser.outcomes, old(browser.requests), old(browser.requests) + |old(ws.tabs)|)
    ensures !outcome.OpenFailed? ==> browser.newPages == old(browser.newPages) + old(ws.tabs)
    ensures outcome.OpenFailed? ==> ws.tabs == old(ws.tabs)
    ensures outcome.OpenFailed? ==>
      old(browser.requests) < browser.requests <= old(browser.requests) + |old(ws.tabs)| &&
      FirstRefusedSince(browser.outcomes, old(browser.requests), browser.requests - 1)
    ensures outcome.OpenFailed? ==>
      browser.newPages == old(browser.newPages) + old(ws.tabs)[..browser.requests - 1 - old(browser.requests)]
    ensures outcome.Running? ==> forall k :: 0 <= k < |polls| ==> BA.Snapshot(polls[k]).Success?
    ensures outcome.Running? && polls != [] ==>
      multiset(ws.tabs) == multiset(BA.Snapshot(polls[|polls| - 1]).value)
    ensures outcome.SnapshotFailed? ==>
      exists k :: 0 <= k < |polls| && BA.Snapshot(polls[k]) == Failure(outcome.error) &&
                  forall j :: 0 <= j < k ==> BA.Snapshot(polls[j]).Success?
  {
    var done := BA.OpenStoredTabs(ws, browser);
    if !done {
      return OpenFailed;
    }
    var failure := PollLoop(ws, polls);
    outcome := if failure.None? then Running else SnapshotFailed(failure.value);
  }
}
