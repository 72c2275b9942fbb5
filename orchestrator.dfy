/**
  `main`: fetch the hosts overview; on a 200 response load a fresh
  `datadog-<timestamp>` index from its rows, look up the index the
  "datadog" alias points at, and swap the alias over to the new index;
  on any other status print the code and exit with status 1.
 */
module Orchestrator {
  import opened Documents
  import opened Wire
  import opened BulkLoader
  import opened Aliases

  /** The batch size `main` loads with: `agent_versions`' default. */
  const BatchSize := 50
  const AliasName := "datadog"

  /** How a run ends. */
  datatype Exit =
    | Completed              // `main` returned
    | Exited(code: int)      // `exit(code)`
    | Raised(error: Error)   // an exception escaped `main`

  /**
    What the outside world answers during one run: the overview's status
    and rows, the formatted start time, the alias lookup's status and the
    keys of its body, and the alias swap's status.
   */
  datatype Responses = Responses(
    fetchStatus: int,
    rows: seq<HostRow>,
    stamp: string,
    aliasStatus: int,
    aliasKeys: seq<string>,
    swapStatus: int)

  /** The requests one run sends, in order, and how it ends. */
  datatype Run = Run(requests: seq<Request>, exit: Exit)

  /** The run of `main` against the given responses. */
  function RefreshRun(resp: Responses): Run {
    Steps(resp, Load(resp.rows, BatchSize, IndexName(resp.stamp)))
  }

  /** The run of `main` once `agent_versions` has sent and returned what `load` says. */
  function Steps(resp: Responses, load: LoadRun): Run {
    if resp.fetchStatus != StatusOk then Run([FetchOverview], Exited(1))
    else
      var loaded := [FetchOverview] + BulkPosts(load.posts);
      if load.result.Err? then Run(loaded, Raised(load.result.error))
      else
        var looked := loaded + [AliasGet(AliasName)];
        var previous := AliasIndexOf(resp.aliasStatus, resp.aliasKeys);
        if previous.Err? then Run(looked, Raised(previous.error))
        else
          var swapped := looked + [AliasesPost(Actions(AliasName, load.result.value, Some(previous.value)))];
          Run(swapped, if resp.swapStatus == StatusOk then Completed else Raised(BadStatus(resp.swapStatus)))
  }

  /** `main()`, with the responses it receives as inputs. */
  method Refresh(net: Network, resp: Responses) returns (exit: Exit)
    modifies net
    ensures net.requests == old(net.requests) + RefreshRun(resp).requests
    ensures exit == RefreshRun(resp).exit
  {
    ghost var before := net.requests;
    net.Send(FetchOverview);
    if resp.fetchStatus == StatusOk {
      ghost var load := Load(resp.rows, BatchSize, IndexName(resp.stamp));
      var newIndex := AgentVersions(net, resp.rows, BatchSize, resp.stamp);
      ghost var sent := [FetchOverview] + BulkPosts(load.posts);
      Appended(before, [FetchOverview], BulkPosts(load.posts));
      if newIndex.Err? {
        return Raised(newIndex.error);
      }
      var oldIndex := GetAliasIndex(net, AliasName, resp.aliasStatus, resp.aliasKeys);
      Appended(before, sent, [AliasGet(AliasName)]);
      sent := sent + [AliasGet(AliasName)];
      if oldIndex.Err? {
        return Raised(oldIndex.error);
      }
      var swapped := Alias(net, AliasName, newIndex.value, Some(oldIndex.value), resp.swapStatus);
      ghost var swap := AliasesPost(Actions(AliasName, newIndex.value, Some(oldIndex.value)));
      Appended(before, sent, [swap]);
      if swapped.Err? {
        return Raised(swapped.error);
      }
      return Completed;
    } else {
      // print 'API returns non 200 code ...'; exit(1)
      return Exited(1);
    }
  }

  lemma Appended(before: seq<Request>, sent: seq<Request>, more: seq<Request>)
    ensures before + sent + more == before + (sent + more)
  {
  }

  /** The order of the requests: the fetch, then bulk posts, then the alias lookup, then the swap. */
  function Phase(r: Request): nat {
    match r
    case FetchOverview => 0
    case BulkPost(_) => 1
    case AliasGet(_) => 2
    case AliasesPost(_) => 3
  }

  lemma {:induction false} BulkPostsAt(posts: seq<seq<BulkLine>>, k: nat)
    requires k < |posts|
    ensures BulkPosts(posts)[k] == BulkPost(posts[k])
    decreases |posts|
  {
    if k < |posts| - 1 {
      BulkPostsAt(posts[..|posts| - 1], k);
    }
  }

  /**
    Every run starts with the fetch and sends its requests phase by phase:
    no bulk post after the alias lookup, no lookup after the swap. A fetch
    that is not answered with 200 is the only request, and the run exits
    with status 1.
   */
  lemma RefreshOrder(resp: Responses)
    ensures var run := RefreshRun(resp);
      && |run.requests| >= 1 && run.requests[0] == FetchOverview
      && (forall i, j :: 0 <= i < j < |run.requests| ==> Phase(run.requests[i]) <= Phase(run.requests[j]))
      && (run.exit == Exited(1) <==> resp.fetchStatus != StatusOk)
      && (resp.fetchStatus != StatusOk ==> run.requests == [FetchOverview])
  {
    StepsOrder(resp, Load(resp.rows, BatchSize, IndexName(resp.stamp)));
  }

  lemma StepsOrder(resp: Responses, load: LoadRun)
    ensures var run := Steps(resp, load);
      && |run.requests| >= 1 && run.requests[0] == FetchOverview
      && (forall i, j :: 0 <= i < j < |run.requests| ==> Phase(run.requests[i]) <= Phase(run.requests[j]))
      && (run.exit == Exited(1) <==> resp.fetchStatus != StatusOk)
      && (resp.fetchStatus != StatusOk ==> run.requests == [FetchOverview])
  {
    if resp.fetchStatus == StatusOk {
      var bulk := BulkPosts(load.posts);
      forall k | 0 <= k < |bulk|
        ensures Phase(bulk[k]) == 1
      {
        BulkPostsAt(load.posts, k);
      }
    }
  }

  /**
    The alias is swapped exactly when the overview was fetched, every row
    was loaded and the alias lookup named an index; the swap is then the
    last request, adds the new index `datadog-<stamp>` under "datadog" and
    removes the looked-up index unless its name is empty.
   */
  lemma SwapWhenLoaded(resp: Responses)
    ensures var run := RefreshRun(resp);
      var swaps := resp.fetchStatus == StatusOk
        && (forall j :: 0 <= j < |resp.rows| && HasVersion(resp.rows[j]) ==> '.' in resp.rows[j].meta[AgentVersionKey])
        && resp.aliasStatus == StatusOk && resp.aliasKeys != [];
      && ((exists i :: 0 <= i < |run.requests| && run.requests[i].AliasesPost?) <==> swaps)
      && (swaps ==> run.requests[|run.requests| - 1]
                    == AliasesPost(Actions(AliasName, IndexName(resp.stamp), Some(resp.aliasKeys[0]))))
  {
    LoadSucceeds(resp.rows, BatchSize, IndexName(resp.stamp));
    StepsSwap(resp, Load(resp.rows, BatchSize, IndexName(resp.stamp)));
  }

  lemma StepsSwap(resp: Responses, load: LoadRun)
    ensures var run := Steps(resp, load);
      var swaps := resp.fetchStatus == StatusOk && load.result.Ok?
        && resp.aliasStatus == StatusOk && resp.aliasKeys != [];
      && ((exists i :: 0 <= i < |run.requests| && run.requests[i].AliasesPost?) <==> swaps)
      && (swaps ==> run.requests[|run.requests| - 1]
                    == AliasesPost(Actions(AliasName, load.result.value, Some(resp.aliasKeys[0]))))
  {
    var run := Steps(resp, load);
    if resp.fetchStatus == StatusOk {
      var bulk := BulkPosts(load.posts);
      forall k | 0 <= k < |bulk|
        ensures !bulk[k].AliasesPost?
      {
        BulkPostsAt(load.posts, k);
      }
      if load.result.Ok? && resp.aliasStatus == StatusOk && resp.aliasKeys != [] {
        assert run.requests[|run.requests| - 1].AliasesPost?;
      }
    }
  }

  /**
    A run completes exactly when the overview, the alias lookup and the
    swap are answered with 200, the lookup names an index and every agent
    version has a '.'.
   */
  lemma CompletedWhen(resp: Responses)
    ensures RefreshRun(resp).exit == Completed <==>
      && resp.fetchStatus == StatusOk
      && (forall j :: 0 <= j < |resp.rows| && HasVersion(resp.rows[j]) ==> '.' in resp.rows[j].meta[AgentVersionKey])
      && resp.aliasStatus == StatusOk && resp.aliasKeys != []
      && resp.swapStatus == StatusOk
  {
    LoadSucceeds(resp.rows, BatchSize, IndexName(resp.stamp));
  }

  /**
    The first run, before the "datadog" alias exists: the lookup is not
    answered with 200, so the run raises after loading the new index, and
    the alias is never touched.
   */
  lemma FirstRunWithoutAlias(resp: Responses)
    requires resp.fetchStatus == StatusOk && resp.aliasStatus != StatusOk
    requires forall j :: 0 <= j < |resp.rows| && HasVersion(resp.rows[j]) ==> '.' in resp.rows[j].meta[AgentVersionKey]
    ensures var run := RefreshRun(resp);
      && run.exit == Raised(BadStatus(resp.aliasStatus))
      && run.requests[|run.requests| - 1] == AliasGet(AliasName)
      && forall i :: 0 <= i < |run.requests| ==> !run.requests[i].AliasesPost?
  {
    LoadSucceeds(resp.rows, BatchSize, IndexName(resp.stamp));
    var load := Load(resp.rows, BatchSize, IndexName(resp.stamp));
    var bulk := BulkPosts(load.posts);
    forall k | 0 <= k < |bulk|
      ensures !bulk[k].AliasesPost?
    {
      BulkPostsAt(load.posts, k);
    }
  }

  /**
    One run end to end: host "web-1" reports agent 7.31.0 and a Datadog
    tag, host "db-1" reports no version; the alias points at yesterday's
    index. The run posts one bulk body holding web-1's action and document
    only, looks the alias up, and swaps it from yesterday's index to today's.
   */
  lemma ExampleRun(resp: Responses)
    requires resp == Responses(
      200,
      [ HostRow("web-1", map[AgentVersionKey := "7.31.0"], map[DatadogSource := ["env:prod"]]),
        HostRow("db-1", map[], map[]) ],
      "20211019120000", 200, ["datadog-20211018120000"], 200)
    ensures var today := "datadog-20211019120000";
      RefreshRun(resp) == Run(
        [ FetchOverview,
          BulkPost([IndexLine(today, "_doc"), DocLine(Doc("web-1", "7", "31", ["env:prod"], [], "agent-stats"))]),
          AliasGet("datadog"),
          AliasesPost([Add(today, "datadog"), RemoveIndex("datadog-20211018120000")]) ],
        Completed)
  {
    var web := resp.rows[0];
    assert IndexName(resp.stamp) == "datadog-20211019120000";
    DocForVersionExample(web);
    assert ToDoc(web) == Doc("web-1", "7", "31", ["env:prod"], [], "agent-stats");
    RunOneDocument(resp);
  }

  /**
    A run over a row with a well-formed version followed by a row without
    one, with every response 200 and a non-empty index name behind the
    alias: one bulk body with the first row's document, the lookup, and a
    swap that adds today's index and removes the looked-up one.
   */
  lemma RunOneDocument(resp: Responses)
    requires resp.fetchStatus == StatusOk && resp.aliasStatus == StatusOk && resp.swapStatus == StatusOk
    requires |resp.rows| == 2 && HasVersion(resp.rows[0]) && '.' in resp.rows[0].meta[AgentVersionKey]
    requires !HasVersion(resp.rows[1])
    requires resp.aliasKeys != [] && resp.aliasKeys[0] != ""
    ensures WellFormed(resp.rows[0])
    ensures var today := IndexName(resp.stamp);
      RefreshRun(resp) == Run(
        [ FetchOverview,
          BulkPost([IndexLine(today, DocType), DocLine(ToDoc(resp.rows[0]))]),
          AliasGet(AliasName),
          AliasesPost([Add(today, AliasName), RemoveIndex(resp.aliasKeys[0])]) ],
        Completed)
  {
    var today := IndexName(resp.stamp);
    LoadOneDocument(resp.rows, BatchSize, today);
    var buff := [IndexLine(today, DocType), DocLine(ToDoc(resp.rows[0]))];
    var load := LoadRun([buff], Ok(today));
    assert BulkPosts([buff]) == [BulkPost(buff)] by {
      assert [buff][..0] == [];
    }
    StepsCompleted(resp, load);
    var actions := Actions(AliasName, today, Some(resp.aliasKeys[0]));
    assert actions == [Add(today, AliasName), RemoveIndex(resp.aliasKeys[0])];
    assert [FetchOverview] + [BulkPost(buff)] + [AliasGet(AliasName), AliasesPost(actions)]
        == [FetchOverview, BulkPost(buff), AliasGet(AliasName), AliasesPost(actions)];
  }

  /** The requests of a run in which every response is 200 and the rows load. */
  lemma StepsCompleted(resp: Responses, load: LoadRun)
    requires resp.fetchStatus == StatusOk && load.result.Ok?
    requires resp.aliasStatus == StatusOk && resp.aliasKeys != [] && resp.swapStatus == StatusOk
    ensures Steps(resp, load) == Run(
      [FetchOverview] + BulkPosts(load.posts)
        + [AliasGet(AliasName), AliasesPost(Actions(AliasName, load.result.value, Some(resp.aliasKeys[0])))],
      Completed)
  {
  }
}
