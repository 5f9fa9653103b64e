/** Comment reconciliation (`create_or_update_comments`, `_list_my_comments`,
    `_delete_duplicate_comments`): for every pull request, list its comments, keep
    the bot's own, then post a new comment when there are none, or patch the newest
    one when its body differs and delete all older ones, oldest first.

    Every request is numbered in the order it is sent. A request with a non-success
    status stops the run at that point (the source's `assert` raises and nothing
    catches it); `failAt` names the first such request, and `None` means every
    request succeeds. A failed request has no effect on the store. */
module Reconcile {
  import opened Wrappers
  import opened Text
  import opened Diff
  import opened Report
  import opened CommentStore

  /** The bot's settings: `project_dir` and the login `user` it posts as. */
  datatype Config = Config(projectDir: string, user: string)

  /** A pull request's comments collection: its URL with every `pulls` turned into
      `issues`, then `/comments`. A URL without `pulls` only gains the suffix. */
  function CommentsUrl(prUrl: string): (r: string)
    ensures |r| >= |"/comments"| && r[|r| - |"/comments"|..] == "/comments"
    ensures !Occurs("pulls", prUrl) ==> r == prUrl + "/comments"
  {
    var issues := ReplaceAll(prUrl, "pulls", "issues");
    assert !Occurs("pulls", prUrl) ==> issues == prUrl by {
      if !Occurs("pulls", prUrl) {
        ReplaceAbsent(prUrl, "pulls", "issues");
      }
    }
    issues + "/comments"
  }

  /** `_list_my_comments`' filter: the comments whose author login is `user`, oldest first. */
  function Mine(t: Thread, user: string): (r: Thread)
    ensures |r| <= |t|
    ensures forall k :: 0 <= k < |r| ==> r[k].author == user && r[k] in t
  {
    Authored(t, user, true)
  }

  function Others(t: Thread, user: string): Thread {
    Authored(t, user, false)
  }

  /** One comment by the bot, with the wanted body. */
  predicate Converged(t: Thread, user: string, body: string) {
    |Mine(t, user)| == 1 && Mine(t, user)[0].body == body
  }

  /** `_delete_duplicate_comments`: one DELETE per comment, in list order. */
  function Deletions(url: string, older: Thread): (calls: seq<Call>)
    ensures |calls| == |older|
    ensures forall k :: 0 <= k < |older| ==> calls[k] == DeleteComment(url, older[k].id)
  {
    if older == [] then [] else [DeleteComment(url, older[0].id)] + Deletions(url, older[1..])
  }

  /** The requests sent after the listing, given the bot's comments oldest first: a
      POST exactly when there are none; otherwise a PATCH of the newest one exactly
      when its body differs, followed by one DELETE per older one, oldest first. */
  function Plan(url: string, mine: Thread, body: string, user: string): (calls: seq<Call>)
    ensures calls == [PostComment(url, user, body)] <==> mine == []
    ensures mine != [] ==> var newest, older := mine[|mine| - 1], mine[..|mine| - 1];
      && (PatchComment(url, newest.id, body) in calls <==> newest.body != body)
      && |calls| == |older| + (if newest.body != body then 1 else 0)
      && calls[|calls| - |older|..] == Deletions(url, older)
  {
    if mine == [] then [PostComment(url, user, body)]
    else
      var newest := mine[|mine| - 1];
      var calls := (if newest.body != body then [PatchComment(url, newest.id, body)] else [])
        + Deletions(url, mine[..|mine| - 1]);
      assert calls == [] || !calls[0].PostComment?;
      calls
  }

  /** What a stretch of requests did: the store afterwards, the requests sent (the
      last one is the failing one when `failed`), and the number of the next request. */
  datatype Outcome = Outcome(store: Store, calls: seq<Call>, next: nat, failed: bool)

  /** Sends `calls` in order, numbering them from `n`, and stops at request `failAt`. */
  function Issue(s: Store, calls: seq<Call>, n: nat, failAt: Option<nat>): (o: Outcome)
    ensures o.failed <==> failAt.Some? && n <= failAt.value < n + |calls|
    ensures o.calls == if o.failed then calls[..failAt.value - n + 1] else calls
    ensures o.next == n + |o.calls|
    decreases |calls|
  {
    if calls == [] then Outcome(s, [], n, false)
    else if failAt == Some(n) then Outcome(s, [calls[0]], n + 1, true)
    else
      var o := Issue(Apply(s, calls[0]), calls[1..], n + 1, failAt);
      Outcome(o.store, [calls[0]] + o.calls, o.next, o.failed)
  }

  /** One iteration of `create_or_update_comments`' loop, for one pull request: the
      listing comes first, and the run fails exactly when request `failAt` is among
      those this pull request sends, which is then the last one sent. */
  function ReconcilePr(s: Store, entry: PrLines, cfg: Config, n: nat, failAt: Option<nat>): (o: Outcome)
    ensures |o.calls| >= 1 && o.calls[0] == ListComments(CommentsUrl(entry.url))
    ensures o.next == n + |o.calls|
    ensures o.failed <==> failAt.Some? && n <= failAt.value < o.next
    ensures o.failed ==> o.next == failAt.value + 1
  {
    var url := CommentsUrl(entry.url);
    var body := Render(cfg.projectDir, entry.lines);
    if failAt == Some(n) then Outcome(s, [ListComments(url)], n + 1, true)
    else
      var o := Issue(s, Plan(url, Mine(ThreadOf(s, url), cfg.user), body, cfg.user), n + 1, failAt);
      Outcome(o.store, [ListComments(url)] + o.calls, o.next, o.failed)
  }

  /** `create_or_update_comments`: the pull requests in order, stopping at a failure;
      nothing is sent after the failing request. */
  function Run(s: Store, entries: seq<PrLines>, cfg: Config, n: nat, failAt: Option<nat>): (o: Outcome)
    ensures o.next == n + |o.calls|
    ensures o.failed <==> failAt.Some? && n <= failAt.value < o.next
    ensures o.failed ==> o.next == failAt.value + 1
    decreases |entries|
  {
    if entries == [] then Outcome(s, [], n, false)
    else
      var o := ReconcilePr(s, entries[0], cfg, n, failAt);
      if o.failed then o
      else
        var r := Run(o.store, entries[1..], cfg, o.next, failAt);
        Outcome(r.store, o.calls + r.calls, r.next, r.failed)
  }

  predicate DistinctCommentsUrls(entries: seq<PrLines>) {
    forall i, j :: 0 <= i < j < |entries| ==> CommentsUrl(entries[i].url) != CommentsUrl(entries[j].url)
  }

  /** The listings a run sends when nothing needs changing. */
  function Listings(entries: seq<PrLines>): seq<Call> {
    seq(|entries|, k requires 0 <= k < |entries| => ListComments(CommentsUrl(entries[k].url)))
  }

  // ---------------------------------------------------------------------------
  // Deleting the older comments

  /** The thread after deleting the comments of `older` one by one. */
  function WithoutAll(t: Thread, older: Thread): Thread
    decreases |older|
  {
    if older == [] then t else WithoutAll(Without(t, older[0].id), older[1..])
  }

  lemma {:induction false} DeletionsEffect(s: Store, url: string, older: Thread)
    ensures ThreadOf(ApplyAll(s, Deletions(url, older)), url) == WithoutAll(ThreadOf(s, url), older)
    decreases |older|
  {
    if older != [] {
      var c := DeleteComment(url, older[0].id);
      assert Deletions(url, older)[1..] == Deletions(url, older[1..]);
      DeletionsEffect(Apply(s, c), url, older[1..]);
    }
  }

  lemma {:induction false} AuthoredWithoutAll(t: Thread, older: Thread, user: string, mine: bool)
    ensures Authored(WithoutAll(t, older), user, mine) == WithoutAll(Authored(t, user, mine), older)
    decreases |older|
  {
    if older != [] {
      AuthoredWithout(t, older[0].id, user, mine);
      AuthoredWithoutAll(Without(t, older[0].id), older[1..], user, mine);
    }
  }

  lemma {:induction false} WithoutAllAbsent(t: Thread, older: Thread)
    requires forall k, j :: 0 <= k < |t| && 0 <= j < |older| ==> t[k].id != older[j].id
    ensures WithoutAll(t, older) == t
    decreases |older|
  {
    if older != [] {
      WithoutAbsent(t, older[0].id);
      WithoutAllAbsent(t, older[1..]);
    }
  }

  /** Deleting the older comments, in order, from a list of unique ids leaves the newest. */
  lemma {:induction false} DeleteOlder(older: Thread, newest: Comment)
    requires DistinctIds(older + [newest])
    ensures WithoutAll(older + [newest], older) == [newest]
    decreases |older|
  {
    var t := older + [newest];
    if older == [] {
      assert t == [newest];
    } else {
      var rest := older[1..] + [newest];
      assert t == [older[0]] + rest;
      forall k | 0 <= k < |rest|
        ensures rest[k] == t[k + 1] && rest[k].id != older[0].id
      {
        assert t[0] == older[0];
      }
      assert DistinctIds(rest) by {
        forall i, j | 0 <= i < j < |rest|
          ensures rest[i].id != rest[j].id
        {
          assert rest[i] == t[i + 1] && rest[j] == t[j + 1];
        }
      }
      WithoutAbsent(rest, older[0].id);
      WithoutCons([older[0]], rest, older[0].id);
      assert Without([older[0]], older[0].id) == [];
      assert Without(t, older[0].id) == rest;
      DeleteOlder(older[1..], newest);
    }
  }

  // ---------------------------------------------------------------------------
  // One stretch of requests

  lemma {:induction false} IssueAllSucceed(s: Store, calls: seq<Call>, n: nat)
    ensures Issue(s, calls, n, None).store == ApplyAll(s, calls)
    decreases |calls|
  {
    if calls != [] {
      IssueAllSucceed(Apply(s, calls[0]), calls[1..], n + 1);
    }
  }

  lemma {:induction false} ApplyAllAppend(s: Store, a: seq<Call>, b: seq<Call>)
    ensures ApplyAll(s, a + b) == ApplyAll(ApplyAll(s, a), b)
    decreases |a|
  {
    if a == [] {
      assert a + b == b;
    } else {
      assert (a + b)[1..] == a[1..] + b;
      ApplyAllAppend(Apply(s, a[0]), a[1..], b);
    }
  }

  predicate AllAddress(calls: seq<Call>, url: string) {
    forall k :: 0 <= k < |calls| ==> calls[k].thread == url
  }

  /** Every collection other than `url` is the same in `s'` as in `s`. */
  ghost predicate SameExcept(s: Store, s': Store, url: string) {
    forall u :: u != url ==> ThreadOf(s', u) == ThreadOf(s, u)
  }

  /** No comment by anyone but `user` differs between `s` and `s'`, in any collection. */
  ghost predicate SameOthers(s: Store, s': Store, user: string) {
    forall u :: Others(ThreadOf(s', u), user) == Others(ThreadOf(s, u), user)
  }

  /** Requests keep the store valid, whether or not they all succeed. */
  lemma {:induction false} IssueValid(s: Store, calls: seq<Call>, n: nat, failAt: Option<nat>)
    requires Valid(s)
    ensures Valid(Issue(s, calls, n, failAt).store)
    decreases |calls|
  {
    if calls != [] && failAt != Some(n) {
      ApplyValid(s, calls[0]);
      IssueValid(Apply(s, calls[0]), calls[1..], n + 1, failAt);
    }
  }

  /** Requests to one collection leave every other collection as it was. */
  lemma {:induction false} IssueLocal(s: Store, calls: seq<Call>, n: nat, failAt: Option<nat>, url: string)
    requires AllAddress(calls, url)
    ensures SameExcept(s, Issue(s, calls, n, failAt).store, url)
    decreases |calls|
  {
    if calls != [] && failAt != Some(n) {
      var s' := Apply(s, calls[0]);
      var o := Issue(s', calls[1..], n + 1, failAt);
      IssueLocal(s', calls[1..], n + 1, failAt, url);
      forall u | u != url
        ensures ThreadOf(o.store, u) == ThreadOf(s, u)
      {
        ApplyLocal(s, calls[0], u);
      }
    }
  }

  /** Requests that each spare the other authors' comments of the collection leave every
      other author's comment, everywhere, as it was. */
  lemma {:induction false} IssueSpares(s: Store, calls: seq<Call>, n: nat, failAt: Option<nat>, url: string, user: string)
    requires AllAddress(calls, url)
    requires forall k :: 0 <= k < |calls| ==> Spares(calls[k], user, Others(ThreadOf(s, url), user))
    ensures SameOthers(s, Issue(s, calls, n, failAt).store, user)
    decreases |calls|
  {
    if calls != [] && failAt != Some(n) {
      var s' := Apply(s, calls[0]);
      ApplySparesOthers(s, calls[0], user);
      assert Others(ThreadOf(s', url), user) == Others(ThreadOf(s, url), user);
      IssueSpares(s', calls[1..], n + 1, failAt, url, user);
    }
  }

  lemma ThreadOfValid(s: Store, url: string)
    requires Valid(s)
    ensures ThreadValid(ThreadOf(s, url), s.nextId)
  {
  }

  /** The planned requests address the pull request's collection and spare other authors. */
  lemma PlanSpares(s: Store, url: string, body: string, user: string)
    requires Valid(s)
    ensures var t := ThreadOf(s, url);
      var calls := Plan(url, Mine(t, user), body, user);
      && AllAddress(calls, url)
      && forall k :: 0 <= k < |calls| ==> Spares(calls[k], user, Others(t, user))
  {
    var t := ThreadOf(s, url);
    ThreadOfValid(s, url);
    var mine := Mine(t, user);
    if mine != [] {
      PlanSparesKeep(t, url, body, user, mine[..|mine| - 1], mine[|mine| - 1]);
      assert mine == mine[..|mine| - 1] + [mine[|mine| - 1]];
    }
  }

  lemma PlanSparesKeep(t: Thread, url: string, body: string, user: string, older: Thread, newest: Comment)
    requires DistinctIds(t) && Mine(t, user) == older + [newest]
    ensures var calls := Plan(url, older + [newest], body, user);
      && AllAddress(calls, url)
      && forall k :: 0 <= k < |calls| ==> Spares(calls[k], user, Others(t, user))
  {
    OlderDisjoint(t, user, older, newest);
    NewestDisjoint(t, user, older, newest);
    PlanSparesCalls(url, body, user, older, newest, Others(t, user));
  }

  /** The same, stated for any comments `others` whose ids none of the bot's carry. */
  lemma PlanSparesCalls(url: string, body: string, user: string, older: Thread, newest: Comment, others: Thread)
    requires forall k :: 0 <= k < |others| ==> others[k].id != newest.id
    requires forall k, j :: 0 <= k < |others| && 0 <= j < |older| ==> others[k].id != older[j].id
    ensures var calls := Plan(url, older + [newest], body, user);
      && AllAddress(calls, url)
      && forall k :: 0 <= k < |calls| ==> Spares(calls[k], user, others)
  {
    var mine := older + [newest];
    assert mine[..|mine| - 1] == older && mine[|mine| - 1] == newest;
    var patch: seq<Call> := if newest.body != body then [PatchComment(url, newest.id, body)] else [];
    var calls := Plan(url, mine, body, user);
    assert calls == patch + Deletions(url, older);
    forall k | 0 <= k < |calls|
      ensures calls[k].thread == url && Spares(calls[k], user, others)
    {
      if k >= |patch| {
        assert calls[k] == DeleteComment(url, older[k - |patch|].id);
      }
    }
  }

  lemma NewestDisjoint(t: Thread, user: string, older: Thread, newest: Comment)
    requires DistinctIds(t) && Mine(t, user) == older + [newest]
    ensures var others := Others(t, user);
      forall k :: 0 <= k < |others| ==> others[k].id != newest.id
  {
    var others := Others(t, user);
    assert newest == Mine(t, user)[|older|];
    forall k | 0 <= k < |others|
      ensures others[k].id != newest.id
    {
      AuthorsHaveDisjointIds(t, user, newest, others[k]);
    }
  }

  // ---------------------------------------------------------------------------
  // One pull request

  /** After listing, the plan leaves exactly one bot comment, with the rendered body: the
      previously newest one (same id) when there was one, a new comment otherwise.
      Everyone else's comments stay as they were. */
  lemma PlanConverges(s: Store, url: string, body: string, user: string)
    requires Valid(s)
    ensures var t := ThreadOf(s, url);
      var mine := Mine(t, user);
      var t' := ThreadOf(ApplyAll(s, Plan(url, mine, body, user)), url);
      && Mine(t', user) == [Comment(if mine == [] then s.nextId else mine[|mine| - 1].id, user, body)]
      && Others(t', user) == Others(t, user)
  {
    var t := ThreadOf(s, url);
    var mine := Mine(t, user);
    if mine == [] {
      PlanPosts(s, url, body, user);
    } else {
      PlanKeepsNewest(s, url, body, user, mine[..|mine| - 1], mine[|mine| - 1]);
    }
  }

  lemma PlanPosts(s: Store, url: string, body: string, user: string)
    requires Mine(ThreadOf(s, url), user) == []
    ensures var t := ThreadOf(s, url);
      var t' := ThreadOf(ApplyAll(s, Plan(url, [], body, user)), url);
      Mine(t', user) == [Comment(s.nextId, user, body)] && Others(t', user) == Others(t, user)
  {
    var t := ThreadOf(s, url);
    var c := Comment(s.nextId, user, body);
    var calls := Plan(url, [], body, user);
    assert ApplyAll(s, calls) == ApplyAll(Apply(s, calls[0]), []);
    assert ThreadOf(ApplyAll(s, calls), url) == t + [c];
    AuthoredAppend(t, c, user, true);
    AuthoredAppend(t, c, user, false);
  }

  lemma PlanKeepsNewest(s: Store, url: string, body: string, user: string, older: Thread, newest: Comment)
    requires Valid(s)
    requires Mine(ThreadOf(s, url), user) == older + [newest]
    ensures var t := ThreadOf(s, url);
      var t' := ThreadOf(ApplyAll(s, Plan(url, older + [newest], body, user)), url);
      Mine(t', user) == [newest.(body := body)] && Others(t', user) == Others(t, user)
  {
    var t := ThreadOf(s, url);
    var mine := older + [newest];
    assert mine[..|mine| - 1] == older && mine[|mine| - 1] == newest;
    var patch: seq<Call> := if newest.body != body then [PatchComment(url, newest.id, body)] else [];
    PatchNewest(s, url, body, user);
    var s1 := ApplyAll(s, patch);
    assert Plan(url, mine, body, user) == patch + Deletions(url, older);
    ApplyAllAppend(s, patch, Deletions(url, older));
    ThreadOfValid(s, url);
    KeptDistinct(t, user, older, newest, body);
    OlderDisjoint(t, user, older, newest);
    DeleteOlderEffect(s1, url, user, older, newest.(body := body), Others(t, user));
  }

  /** The optional patch turns the newest bot comment's body into the rendered one. */
  lemma PatchNewest(s: Store, url: string, body: string, user: string)
    requires Valid(s)
    requires Mine(ThreadOf(s, url), user) != []
    ensures var t := ThreadOf(s, url);
      var mine := Mine(t, user);
      var newest := mine[|mine| - 1];
      var patch: seq<Call> := if newest.body != body then [PatchComment(url, newest.id, body)] else [];
      var t1 := ThreadOf(ApplyAll(s, patch), url);
      && Mine(t1, user) == mine[..|mine| - 1] + [newest.(body := body)]
      && Others(t1, user) == Others(t, user)
  {
    var t := ThreadOf(s, url);
    ThreadOfValid(s, url);
    var mine, others := Mine(t, user), Others(t, user);
    var older, newest := mine[..|mine| - 1], mine[|mine| - 1];
    assert mine == older + [newest];
    if newest.body != body {
      var c := PatchComment(url, newest.id, body);
      assert ApplyAll(s, [c]) == ApplyAll(Apply(s, c), []);
      assert ThreadOf(ApplyAll(s, [c]), url) == Patched(t, newest.id, body);
      forall j | 0 <= j < |others|
        ensures others[j].id != newest.id
      {
        AuthorsHaveDisjointIds(t, user, newest, others[j]);
      }
      AuthoredDistinct(t, user, true);
      AuthoredPatched(t, newest.id, body, user, true);
      AuthoredPatched(t, newest.id, body, user, false);
      PatchedAbsent(others, newest.id, body);
      PatchedNewest(older, newest, body);
    } else {
      assert newest.(body := body) == newest;
    }
  }

  /** The deletions remove the older bot comments and nothing else. */
  lemma DeleteOlderEffect(s1: Store, url: string, user: string, older: Thread, kept: Comment, others: Thread)
    requires Mine(ThreadOf(s1, url), user) == older + [kept]
    requires Others(ThreadOf(s1, url), user) == others
    requires DistinctIds(older + [kept])
    requires forall k, j :: 0 <= k < |others| && 0 <= j < |older| ==> others[k].id != older[j].id
    ensures var t2 := ThreadOf(ApplyAll(s1, Deletions(url, older)), url);
      Mine(t2, user) == [kept] && Others(t2, user) == others
  {
    var t1 := ThreadOf(s1, url);
    DeletionsEffect(s1, url, older);
    AuthoredWithoutAll(t1, older, user, true);
    AuthoredWithoutAll(t1, older, user, false);
    DeleteOlder(older, kept);
    WithoutAllAbsent(others, older);
  }

  lemma KeptDistinct(t: Thread, user: string, older: Thread, newest: Comment, body: string)
    requires DistinctIds(t) && Mine(t, user) == older + [newest]
    ensures DistinctIds(older + [newest.(body := body)])
  {
    var mine := older + [newest];
    var r := older + [newest.(body := body)];
    AuthoredDistinct(t, user, true);
    assert forall k :: 0 <= k < |mine| ==> r[k].id == mine[k].id;
  }

  lemma OlderDisjoint(t: Thread, user: string, older: Thread, newest: Comment)
    requires DistinctIds(t) && Mine(t, user) == older + [newest]
    ensures var others := Others(t, user);
      forall k, j :: 0 <= k < |others| && 0 <= j < |older| ==> others[k].id != older[j].id
  {
    var others := Others(t, user);
    forall k, j | 0 <= k < |others| && 0 <= j < |older|
      ensures others[k].id != older[j].id
    {
      assert older[j] == (older + [newest])[j];
      AuthorsHaveDisjointIds(t, user, older[j], others[k]);
    }
  }

  lemma {:induction false} PatchedNewest(older: Thread, newest: Comment, body: string)
    requires DistinctIds(older + [newest])
    ensures Patched(older + [newest], newest.id, body) == older + [newest.(body := body)]
  {
    var t := older + [newest];
    var r := Patched(t, newest.id, body);
    forall k | 0 <= k < |t|
      ensures r[k] == (older + [newest.(body := body)])[k]
    {
      if k < |older| {
        assert t[k] == older[k] && t[k].id != t[|older|].id;
      }
    }
  }

  /** Convergence: when every request succeeds, the pull request ends with exactly one
      bot comment, whose body is the rendered report; it is the previously newest bot
      comment with its id kept, or a new one when the bot had none. */
  lemma ReconcileConverges(s: Store, entry: PrLines, cfg: Config, n: nat)
    requires Valid(s)
    ensures var url, t := CommentsUrl(entry.url), ThreadOf(s, CommentsUrl(entry.url));
      var mine := Mine(t, cfg.user);
      var o := ReconcilePr(s, entry, cfg, n, None);
      var t' := ThreadOf(o.store, url);
      && !o.failed
      && Valid(o.store)
      && Mine(t', cfg.user) == [Comment(if mine == [] then s.nextId else mine[|mine| - 1].id, cfg.user,
                                        Render(cfg.projectDir, entry.lines))]
      && Others(t', cfg.user) == Others(t, cfg.user)
      && SameExcept(s, o.store, url)
  {
    var url := CommentsUrl(entry.url);
    var body := Render(cfg.projectDir, entry.lines);
    var calls := Plan(url, Mine(ThreadOf(s, url), cfg.user), body, cfg.user);
    IssueAllSucceed(s, calls, n + 1);
    PlanConverges(s, url, body, cfg.user);
    IssueValid(s, calls, n + 1, None);
    PlanSpares(s, url, body, cfg.user);
    IssueLocal(s, calls, n + 1, None, url);
  }

  /** Whatever fails, one pull request's reconciliation keeps the store valid. */
  lemma ReconcileValid(s: Store, entry: PrLines, cfg: Config, n: nat, failAt: Option<nat>)
    requires Valid(s)
    ensures Valid(ReconcilePr(s, entry, cfg, n, failAt).store)
  {
    if failAt != Some(n) {
      var url := CommentsUrl(entry.url);
      var body := Render(cfg.projectDir, entry.lines);
      IssueValid(s, Plan(url, Mine(ThreadOf(s, url), cfg.user), body, cfg.user), n + 1, failAt);
    }
  }

  /** Whatever fails, one pull request's reconciliation touches only its own collection
      and never changes another author's comment. */
  lemma ReconcileContained(s: Store, entry: PrLines, cfg: Config, n: nat, failAt: Option<nat>)
    requires Valid(s)
    ensures var o := ReconcilePr(s, entry, cfg, n, failAt);
      SameExcept(s, o.store, CommentsUrl(entry.url)) && SameOthers(s, o.store, cfg.user)
  {
    if failAt != Some(n) {
      var url := CommentsUrl(entry.url);
      var body := Render(cfg.projectDir, entry.lines);
      var calls := Plan(url, Mine(ThreadOf(s, url), cfg.user), body, cfg.user);
      PlanSpares(s, url, body, cfg.user);
      IssueLocal(s, calls, n + 1, failAt, url);
      IssueSpares(s, calls, n + 1, failAt, url, cfg.user);
    }
  }

  /** On a converged pull request the reconciliation only lists: no post, patch or delete. */
  lemma ReconcileNoOp(s: Store, entry: PrLines, cfg: Config, n: nat)
    requires Converged(ThreadOf(s, CommentsUrl(entry.url)), cfg.user, Render(cfg.projectDir, entry.lines))
    ensures ReconcilePr(s, entry, cfg, n, None) == Outcome(s, [ListComments(CommentsUrl(entry.url))], n + 1, false)
  {
    var mine := Mine(ThreadOf(s, CommentsUrl(entry.url)), cfg.user);
    assert mine[..|mine| - 1] == [];
  }

  /** Idempotence: reconciling the same pull request twice sends no post, patch or
      delete the second time and leaves the store as the first run left it. */
  lemma ReconcileIdempotent(s: Store, entry: PrLines, cfg: Config, n: nat, m: nat)
    requires Valid(s)
    ensures var o := ReconcilePr(s, entry, cfg, n, None);
      ReconcilePr(o.store, entry, cfg, m, None) == Outcome(o.store, [ListComments(CommentsUrl(entry.url))], m + 1, false)
  {
    ReconcileConverges(s, entry, cfg, n);
    ReconcileNoOp(ReconcilePr(s, entry, cfg, n, None).store, entry, cfg, m);
  }

  // ---------------------------------------------------------------------------
  // The whole run

  /** Whatever fails, a run keeps the store valid. */
  lemma {:induction false} RunValid(s: Store, entries: seq<PrLines>, cfg: Config, n: nat, failAt: Option<nat>)
    requires Valid(s)
    ensures Valid(Run(s, entries, cfg, n, failAt).store)
    decreases |entries|
  {
    if entries != [] {
      var o := ReconcilePr(s, entries[0], cfg, n, failAt);
      ReconcileValid(s, entries[0], cfg, n, failAt);
      if !o.failed {
        RunValid(o.store, entries[1..], cfg, o.next, failAt);
      }
    }
  }

  /** Whatever fails, a run changes only the collections of the pull requests it was given. */
  lemma {:induction false} RunLocal(s: Store, entries: seq<PrLines>, cfg: Config, n: nat, failAt: Option<nat>, url: string)
    requires Valid(s)
    requires forall k :: 0 <= k < |entries| ==> CommentsUrl(entries[k].url) != url
    ensures ThreadOf(Run(s, entries, cfg, n, failAt).store, url) == ThreadOf(s, url)
    decreases |entries|
  {
    if entries != [] {
      var o := ReconcilePr(s, entries[0], cfg, n, failAt);
      ReconcileContained(s, entries[0], cfg, n, failAt);
      ReconcileValid(s, entries[0], cfg, n, failAt);
      if !o.failed {
        assert forall k :: 0 <= k < |entries| - 1 ==> entries[1..][k] == entries[k + 1];
        RunLocal(o.store, entries[1..], cfg, o.next, failAt, url);
      }
    }
  }

  /** Whatever fails, a run never changes another author's comment. */
  lemma {:induction false} RunKeepsOthers(s: Store, entries: seq<PrLines>, cfg: Config, n: nat, failAt: Option<nat>)
    requires Valid(s)
    ensures SameOthers(s, Run(s, entries, cfg, n, failAt).store, cfg.user)
    decreases |entries|
  {
    if entries != [] {
      var o := ReconcilePr(s, entries[0], cfg, n, failAt);
      ReconcileContained(s, entries[0], cfg, n, failAt);
      ReconcileValid(s, entries[0], cfg, n, failAt);
      if !o.failed {
        RunKeepsOthers(o.store, entries[1..], cfg, o.next, failAt);
      }
    }
  }

  /** Convergence of a whole run in which every request succeeds: each pull request
      given, provided no two share a comments collection, ends with exactly one bot
      comment, whose body is its rendered report. */
  lemma {:induction false} RunConverges(s: Store, entries: seq<PrLines>, cfg: Config, n: nat)
    requires Valid(s) && DistinctCommentsUrls(entries)
    ensures var o := Run(s, entries, cfg, n, None);
      && !o.failed
      && forall i :: 0 <= i < |entries| ==>
        Converged(ThreadOf(o.store, CommentsUrl(entries[i].url)), cfg.user, Render(cfg.projectDir, entries[i].lines))
    decreases |entries|
  {
    if entries != [] {
      var e := entries[0];
      var url := CommentsUrl(e.url);
      var o := ReconcilePr(s, e, cfg, n, None);
      ReconcileConverges(s, e, cfg, n);
      var rest := entries[1..];
      RunConverges(o.store, rest, cfg, o.next);
      var r := Run(o.store, rest, cfg, o.next, None);
      assert forall k :: 0 <= k < |rest| ==> rest[k] == entries[k + 1];
      RunLocal(o.store, rest, cfg, o.next, None, url);
      forall i | 0 <= i < |entries|
        ensures Converged(ThreadOf(r.store, CommentsUrl(entries[i].url)), cfg.user, Render(cfg.projectDir, entries[i].lines))
      {
        if i > 0 {
          assert entries[i] == rest[i - 1];
        }
      }
    }
  }

  /** A run over pull requests that have all converged sends only the listings. */
  lemma {:induction false} RunNoOp(s: Store, entries: seq<PrLines>, cfg: Config, n: nat)
    requires forall i :: 0 <= i < |entries| ==>
      Converged(ThreadOf(s, CommentsUrl(entries[i].url)), cfg.user, Render(cfg.projectDir, entries[i].lines))
    ensures Run(s, entries, cfg, n, None) == Outcome(s, Listings(entries), n + |entries|, false)
    decreases |entries|
  {
    if entries == [] {
      assert Listings(entries) == [];
    } else {
      var list := ListComments(CommentsUrl(entries[0].url));
      var o := ReconcilePr(s, entries[0], cfg, n, None);
      ReconcileNoOp(s, entries[0], cfg, n);
      var rest := entries[1..];
      assert forall i :: 0 <= i < |rest| ==> rest[i] == entries[i + 1];
      var r := Run(s, rest, cfg, n + 1, None);
      RunNoOp(s, rest, cfg, n + 1);
      assert Run(s, entries, cfg, n, None) == Outcome(r.store, o.calls + r.calls, r.next, r.failed);
      ListingsCons(entries);
    }
  }

  lemma ListingsCons(entries: seq<PrLines>)
    requires entries != []
    ensures Listings(entries) == [ListComments(CommentsUrl(entries[0].url))] + Listings(entries[1..])
  {
  }

  /** Idempotence: running the bot a second time over the same pull requests sends no
      post, patch or delete and leaves the store as the first run left it. */
  lemma RunIdempotent(s: Store, entries: seq<PrLines>, cfg: Config, n: nat, m: nat)
    requires Valid(s) && DistinctCommentsUrls(entries)
    ensures var o := Run(s, entries, cfg, n, None);
      Run(o.store, entries, cfg, m, None) == Outcome(o.store, Listings(entries), m + |entries|, false)
  {
    RunConverges(s, entries, cfg, n);
    RunNoOp(Run(s, entries, cfg, n, None).store, entries, cfg, m);
  }

  // ---------------------------------------------------------------------------
  // The comments URL

  lemma NotAfterSlash(x: string)
    requires !Occurs("pulls", x)
    ensures !Occurs("pulls", "/" + x)
  {
    var y := "/" + x;
    forall i | 0 <= i <= |y|
      ensures !OccursAt("pulls", y, i)
    {
      if i == 0 && 5 <= |y| {
        assert y[i..i + 5][0] == '/';
      } else if 0 < i && i + 5 <= |y| {
        assert y[i..i + 5] == x[i - 1..i - 1 + 5];
        assert !OccursAt("pulls", x, i - 1);
      }
    }
  }

  /** For a pull request's API URL `<base>/pulls/<number>`, the comments collection is
      the base with its own "pulls" rewritten, then `/issues/<number>/comments`; a base
      without "pulls" is kept as it is. The number is assumed free of "pulls". */
  lemma CommentsUrlOfPull(base: string, number: string)
    requires !Occurs("pulls", number)
    ensures CommentsUrl(base + "/pulls/" + number)
      == ReplaceAll(base, "pulls", "issues") + "/issues/" + number + "/comments"
    ensures !Occurs("pulls", base) ==>
      CommentsUrl(base + "/pulls/" + number) == base + "/issues/" + number + "/comments"
  {
    ReplacePull(base, number);
    if !Occurs("pulls", base) {
      ReplaceAbsent(base, "pulls", "issues");
    }
  }

  lemma ReplacePull(base: string, number: string)
    requires !Occurs("pulls", number)
    ensures ReplaceAll(base + "/pulls/" + number, "pulls", "issues")
      == ReplaceAll(base, "pulls", "issues") + "/issues/" + number
  {
    var tail := "/" + number;
    NotAfterSlash(number);
    assert base + "/pulls/" + number == base + ("/pulls" + tail);
    ReplaceSplit("/pulls", tail, "pulls", "issues");
    ReplaceSplit(base, "/pulls" + tail, "pulls", "issues");
    ReplaceAbsent(tail, "pulls", "issues");
    ReplaceSlashPulls();
  }

  lemma ReplaceSlashPulls()
    ensures ReplaceAll("/pulls", "pulls", "issues") == "/issues"
  {
    assert "/pulls"[1..] == "pulls";
    assert "pulls"[5..] == [];
  }

  /** Different pull request numbers under one base give different comments collections. */
  lemma CommentsUrlsDiffer(base: string, n1: string, n2: string)
    requires !Occurs("pulls", n1) && !Occurs("pulls", n2)
    requires n1 != n2
    ensures CommentsUrl(base + "/pulls/" + n1) != CommentsUrl(base + "/pulls/" + n2)
  {
    CommentsUrlOfPull(base, n1);
    CommentsUrlOfPull(base, n2);
    var b := ReplaceAll(base, "pulls", "issues");
    var c1, c2 := b + "/issues/" + n1 + "/comments", b + "/issues/" + n2 + "/comments";
    var k := |b| + 8;
    assert c1[k..|c1| - 9] == n1;
    assert c2[k..|c2| - 9] == n2;
  }
}
