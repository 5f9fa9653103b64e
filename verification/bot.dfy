/** The script as a whole: `get_lines` over the open pull requests, then
    `create_or_update_comments` over the rows it found. */
module Bot {
  import opened Wrappers
  import opened Diff
  import opened Report
  import opened CommentStore
  import opened Reconcile

  /** One run of the bot: requests are numbered from 0 and request `failAt`, if any, fails. */
  function Pipeline(s: Store, prs: seq<PrFiles>, cfg: Config, failAt: Option<nat>): (o: Outcome)
    ensures o.next == |o.calls|
    ensures o.failed <==> failAt.Some? && failAt.value < |o.calls|
    ensures o.failed ==> |o.calls| == failAt.value + 1
  {
    Run(s, LinesByPr(prs, cfg.projectDir), cfg, 0, failAt)
  }

  /** No two pull requests share a comments collection. */
  predicate DistinctTargets(prs: seq<PrFiles>) {
    forall j, k :: 0 <= j < k < |prs| ==> CommentsUrl(prs[j].url) != CommentsUrl(prs[k].url)
  }

  lemma {:induction false} LinesByPrTargets(prs: seq<PrFiles>, dir: string)
    requires DistinctTargets(prs)
    ensures DistinctCommentsUrls(LinesByPr(prs, dir))
    decreases |prs|
  {
    if prs != [] {
      var n := |prs| - 1;
      var init := prs[..n];
      InitTargets(prs);
      LinesByPrTargets(init, dir);
      EarlierTargets(prs, dir);
      var rows := DiffRows(prs[n].files, dir);
      var added: seq<PrLines> := if rows != [] then [PrLines(prs[n].url, rows)] else [];
      assert LinesByPr(prs, dir) == LinesByPr(init, dir) + added;
      AppendedTargets(LinesByPr(init, dir), added);
    }
  }

  lemma InitTargets(prs: seq<PrFiles>)
    requires DistinctTargets(prs) && prs != []
    ensures DistinctTargets(prs[..|prs| - 1])
  {
    var init := prs[..|prs| - 1];
    assert forall j :: 0 <= j < |init| ==> init[j] == prs[j];
  }

  /** The entries built from the earlier pull requests all target other collections
      than the last pull request. */
  lemma EarlierTargets(prs: seq<PrFiles>, dir: string)
    requires DistinctTargets(prs) && prs != []
    ensures var n := |prs| - 1;
      var r0 := LinesByPr(prs[..n], dir);
      forall k :: 0 <= k < |r0| ==> CommentsUrl(r0[k].url) != CommentsUrl(prs[n].url)
  {
    var n := |prs| - 1;
    var init := prs[..n];
    var r0 := LinesByPr(init, dir);
    LinesByPrSound(init, dir);
    forall k | 0 <= k < |r0|
      ensures CommentsUrl(r0[k].url) != CommentsUrl(prs[n].url)
    {
      var j :| 0 <= j < n && r0[k] == PrLines(init[j].url, DiffRows(init[j].files, dir));
      assert init[j] == prs[j];
    }
  }

  lemma AppendedTargets(r0: seq<PrLines>, added: seq<PrLines>)
    requires DistinctCommentsUrls(r0) && |added| <= 1
    requires forall k, j :: 0 <= k < |r0| && 0 <= j < |added| ==> CommentsUrl(r0[k].url) != CommentsUrl(added[j].url)
    ensures DistinctCommentsUrls(r0 + added)
  {
    var r := r0 + added;
    forall i, j | 0 <= i < j < |r|
      ensures CommentsUrl(r[i].url) != CommentsUrl(r[j].url)
    {
      if j >= |r0| {
        assert r[j] == added[j - |r0|] && r[i] == r0[i];
      }
    }
  }

  /** A pull request that touches no file under the project directory keeps its
      conversation as it was, whatever fails. */
  lemma UntouchedPrUnchanged(s: Store, prs: seq<PrFiles>, cfg: Config, failAt: Option<nat>, i: nat)
    requires Valid(s) && DistinctTargets(prs)
    requires i < |prs| && DiffRows(prs[i].files, cfg.projectDir) == []
    ensures var url := CommentsUrl(prs[i].url);
      ThreadOf(Pipeline(s, prs, cfg, failAt).store, url) == ThreadOf(s, url)
  {
    var entries := LinesByPr(prs, cfg.projectDir);
    var url := CommentsUrl(prs[i].url);
    LinesByPrSound(prs, cfg.projectDir);
    forall k | 0 <= k < |entries|
      ensures CommentsUrl(entries[k].url) != url
    {
      var j :| 0 <= j < |prs| && entries[k] == PrLines(prs[j].url, DiffRows(prs[j].files, cfg.projectDir));
      assert j != i;
    }
    RunLocal(s, entries, cfg, 0, failAt, url);
  }

  /** When every request succeeds, each pull request that touches the project directory
      ends with exactly one bot comment, holding the report rendered from its rows. */
  lemma TouchedPrConverges(s: Store, prs: seq<PrFiles>, cfg: Config, i: nat)
    requires Valid(s) && DistinctTargets(prs)
    requires i < |prs| && DiffRows(prs[i].files, cfg.projectDir) != []
    ensures var o := Pipeline(s, prs, cfg, None);
      && !o.failed
      && Converged(ThreadOf(o.store, CommentsUrl(prs[i].url)), cfg.user,
                   Render(cfg.projectDir, DiffRows(prs[i].files, cfg.projectDir)))
  {
    var entries := LinesByPr(prs, cfg.projectDir);
    LinesByPrComplete(prs, cfg.projectDir, i);
    LinesByPrTargets(prs, cfg.projectDir);
    RunConverges(s, entries, cfg, 0);
    var k :| 0 <= k < |entries| && entries[k] == PrLines(prs[i].url, DiffRows(prs[i].files, cfg.projectDir));
  }

  /** Whatever fails, a run never changes a comment written by anyone but the bot. */
  lemma OthersUnchanged(s: Store, prs: seq<PrFiles>, cfg: Config, failAt: Option<nat>, url: string)
    requires Valid(s)
    ensures Others(ThreadOf(Pipeline(s, prs, cfg, failAt).store, url), cfg.user) == Others(ThreadOf(s, url), cfg.user)
  {
    RunKeepsOthers(s, LinesByPr(prs, cfg.projectDir), cfg, 0, failAt);
  }

  /** Running the bot again over the same pull requests only lists comments. */
  lemma PipelineIdempotent(s: Store, prs: seq<PrFiles>, cfg: Config)
    requires Valid(s) && DistinctTargets(prs)
    ensures var o := Pipeline(s, prs, cfg, None);
      var again := Pipeline(o.store, prs, cfg, None);
      && again.store == o.store
      && forall k :: 0 <= k < |again.calls| ==> !IsMutation(again.calls[k])
  {
    var entries := LinesByPr(prs, cfg.projectDir);
    LinesByPrTargets(prs, cfg.projectDir);
    RunIdempotent(s, entries, cfg, 0, 0);
  }
}
