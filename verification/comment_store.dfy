/** The issue-comment store the bot talks to, as an abstract state: for every
    comments-collection URL, its comments in creation order. Each HTTP request the
    bot sends is one `Call`; `Apply` is its effect when the store answers with a
    success status. */
module CommentStore {

  /** A comment. `id` stands for the comment's own URL, which PATCH and DELETE address. */
  datatype Comment = Comment(id: nat, author: string, body: string)

  /** The comments of one pull request's conversation, oldest first. */
  type Thread = seq<Comment>

  /** Every thread by its comments-collection URL, and the id the next new comment gets. */
  datatype Store = Store(threads: map<string, Thread>, nextId: nat)

  /** One request: GET of a collection, POST to it, PATCH or DELETE of one of its comments. */
  datatype Call =
    | ListComments(thread: string)
    | PostComment(thread: string, author: string, body: string)
    | PatchComment(thread: string, id: nat, body: string)
    | DeleteComment(thread: string, id: nat)

  predicate IsMutation(c: Call) {
    !c.ListComments?
  }

  /** A collection nobody has written to reads as empty. */
  function ThreadOf(s: Store, url: string): Thread {
    if url in s.threads then s.threads[url] else []
  }

  /** The comments whose author is `user` (when `mine`) or is someone else (when not), in order. */
  function Authored(t: Thread, user: string, mine: bool): (r: Thread)
    ensures |r| <= |t|
    ensures forall c :: c in r <==> c in t && (c.author == user) == mine
  {
    if t == [] then []
    else (if (t[0].author == user) == mine then [t[0]] else []) + Authored(t[1..], user, mine)
  }

  /** The thread with the body of the comment `id` replaced. */
  function Patched(t: Thread, id: nat, body: string): (r: Thread)
    ensures |r| == |t|
    ensures forall k :: 0 <= k < |t| ==> r[k].id == t[k].id && r[k].author == t[k].author
    ensures forall k :: 0 <= k < |t| ==> r[k].body == if t[k].id == id then body else t[k].body
  {
    if t == [] then []
    else [if t[0].id == id then t[0].(body := body) else t[0]] + Patched(t[1..], id, body)
  }

  /** The thread with the comment `id` removed. */
  function Without(t: Thread, id: nat): (r: Thread)
    ensures |r| <= |t|
    ensures forall c :: c in r <==> c in t && c.id != id
  {
    if t == [] then []
    else (if t[0].id != id then [t[0]] else []) + Without(t[1..], id)
  }

  /** The effect of a call the store answers with success. */
  function Apply(s: Store, c: Call): (r: Store)
    ensures r.nextId == if c.PostComment? then s.nextId + 1 else s.nextId
    ensures forall url :: url != c.thread ==> ThreadOf(r, url) == ThreadOf(s, url)
  {
    match c
    case ListComments(_) => s
    case PostComment(url, author, body) =>
      Store(s.threads[url := ThreadOf(s, url) + [Comment(s.nextId, author, body)]], s.nextId + 1)
    case PatchComment(url, id, body) =>
      Store(s.threads[url := Patched(ThreadOf(s, url), id, body)], s.nextId)
    case DeleteComment(url, id) =>
      Store(s.threads[url := Without(ThreadOf(s, url), id)], s.nextId)
  }

  /** The effect of a sequence of calls that all succeed. */
  function ApplyAll(s: Store, calls: seq<Call>): Store
    decreases |calls|
  {
    if calls == [] then s else ApplyAll(Apply(s, calls[0]), calls[1..])
  }

  predicate DistinctIds(t: Thread) {
    forall i, j :: 0 <= i < j < |t| ==> t[i].id != t[j].id
  }

  predicate ThreadValid(t: Thread, nextId: nat) {
    DistinctIds(t) && forall k :: 0 <= k < |t| ==> t[k].id < nextId
  }

  /** Comment ids are unique within a thread and below the next id to hand out. */
  predicate Valid(s: Store) {
    forall url :: url in s.threads ==> ThreadValid(s.threads[url], s.nextId)
  }

  // ---------------------------------------------------------------------------
  // Filters

  lemma {:induction false} AuthoredDistinct(t: Thread, user: string, mine: bool)
    requires DistinctIds(t)
    ensures DistinctIds(Authored(t, user, mine))
  {
    if t != [] {
      AuthoredDistinct(t[1..], user, mine);
      var rest := Authored(t[1..], user, mine);
      forall c | c in rest
        ensures c.id != t[0].id
      {
        var j :| 0 <= j < |t[1..]| && t[1..][j] == c;
        assert t[j + 1] == c;
      }
    }
  }

  lemma {:induction false} WithoutDistinct(t: Thread, id: nat)
    requires DistinctIds(t)
    ensures DistinctIds(Without(t, id))
  {
    if t != [] {
      WithoutDistinct(t[1..], id);
      var rest := Without(t[1..], id);
      forall c | c in rest
        ensures c.id != t[0].id
      {
        var j :| 0 <= j < |t[1..]| && t[1..][j] == c;
        assert t[j + 1] == c;
      }
    }
  }

  lemma {:induction false} AuthoredAppend(t: Thread, c: Comment, user: string, mine: bool)
    ensures Authored(t + [c], user, mine) == Authored(t, user, mine) + (if (c.author == user) == mine then [c] else [])
  {
    if t == [] {
      assert [c][1..] == [];
    } else {
      assert (t + [c])[1..] == t[1..] + [c];
      AuthoredAppend(t[1..], c, user, mine);
    }
  }

  lemma {:induction false} AuthoredPatched(t: Thread, id: nat, body: string, user: string, mine: bool)
    ensures Authored(Patched(t, id, body), user, mine) == Patched(Authored(t, user, mine), id, body)
  {
    if t != [] {
      AuthoredPatched(t[1..], id, body, user, mine);
    }
  }

  lemma {:induction false} AuthoredWithout(t: Thread, id: nat, user: string, mine: bool)
    ensures Authored(Without(t, id), user, mine) == Without(Authored(t, user, mine), id)
  {
    if t != [] {
      var c, rest := t[0], t[1..];
      AuthoredWithout(rest, id, user, mine);
      var keep := (c.author == user) == mine;
      var head: Thread := if c.id != id then [c] else [];
      assert Without(t, id) == head + Without(rest, id);
      AuthoredCons(head, Without(rest, id), user, mine);
      var ahead: Thread := if keep then [c] else [];
      assert Authored(t, user, mine) == ahead + Authored(rest, user, mine);
      WithoutCons(ahead, Authored(rest, user, mine), id);
    }
  }

  lemma AuthoredCons(head: Thread, rest: Thread, user: string, mine: bool)
    requires |head| <= 1
    ensures Authored(head + rest, user, mine) == Authored(head, user, mine) + Authored(rest, user, mine)
  {
    if |head| == 1 {
      assert (head + rest)[0] == head[0] && (head + rest)[1..] == rest;
      assert head[1..] == [];
    } else {
      assert head + rest == rest;
    }
  }

  lemma WithoutCons(head: Thread, rest: Thread, id: nat)
    requires |head| <= 1
    ensures Without(head + rest, id) == Without(head, id) + Without(rest, id)
  {
    if |head| == 1 {
      assert (head + rest)[0] == head[0] && (head + rest)[1..] == rest;
      assert head[1..] == [];
    } else {
      assert head + rest == rest;
    }
  }

  lemma {:induction false} PatchedAbsent(t: Thread, id: nat, body: string)
    requires forall k :: 0 <= k < |t| ==> t[k].id != id
    ensures Patched(t, id, body) == t
  {
    if t != [] {
      PatchedAbsent(t[1..], id, body);
    }
  }

  lemma {:induction false} WithoutAbsent(t: Thread, id: nat)
    requires forall k :: 0 <= k < |t| ==> t[k].id != id
    ensures Without(t, id) == t
  {
    if t != [] {
      WithoutAbsent(t[1..], id);
    }
  }

  /** Two comments of different authors in one thread of unique ids have different ids. */
  lemma AuthorsHaveDisjointIds(t: Thread, user: string, a: Comment, b: Comment)
    requires DistinctIds(t)
    requires a in Authored(t, user, true) && b in Authored(t, user, false)
    ensures a.id != b.id
  {
    var i :| 0 <= i < |t| && t[i] == a;
    var j :| 0 <= j < |t| && t[j] == b;
    assert i != j;
  }

  // ---------------------------------------------------------------------------
  // Calls

  /** The store's invariant survives every successful call. */
  lemma ApplyValid(s: Store, c: Call)
    requires Valid(s)
    ensures Valid(Apply(s, c))
  {
    var s' := Apply(s, c);
    forall url | url in s'.threads
      ensures ThreadValid(s'.threads[url], s'.nextId)
    {
      if url != c.thread {
        assert s'.threads[url] == s.threads[url];
      } else {
        var t := ThreadOf(s, c.thread);
        assert ThreadValid(t, s.nextId);
        match c
        case ListComments(_) =>
        case PostComment(_, author, body) =>
          assert s'.threads[url] == t + [Comment(s.nextId, author, body)];
        case PatchComment(_, id, body) =>
        case DeleteComment(_, id) =>
          WithoutDistinct(t, id);
          var r := Without(t, id);
          forall k | 0 <= k < |r|
            ensures r[k].id < s.nextId
          {
            assert r[k] in t;
          }
      }
    }
  }

  /** A call changes at most the thread it addresses. */
  lemma ApplyLocal(s: Store, c: Call, url: string)
    requires url != c.thread
    ensures ThreadOf(Apply(s, c), url) == ThreadOf(s, url)
  {
  }

  /** A call spares the comments of other authors on `others`: a post is in the bot's
      own name, a patch or delete addresses an id none of them carries. */
  predicate Spares(c: Call, user: string, others: Thread) {
    match c
    case ListComments(_) => true
    case PostComment(_, author, _) => author == user
    case PatchComment(_, id, _) => forall k :: 0 <= k < |others| ==> others[k].id != id
    case DeleteComment(_, id) => forall k :: 0 <= k < |others| ==> others[k].id != id
  }

  lemma ApplySparesOthers(s: Store, c: Call, user: string)
    requires Spares(c, user, Authored(ThreadOf(s, c.thread), user, false))
    ensures forall url :: Authored(ThreadOf(Apply(s, c), url), user, false) == Authored(ThreadOf(s, url), user, false)
  {
    forall url
      ensures Authored(ThreadOf(Apply(s, c), url), user, false) == Authored(ThreadOf(s, url), user, false)
    {
      if url == c.thread {
        ApplySparesThread(s, c, user);
      } else {
        ApplyLocal(s, c, url);
      }
    }
  }

  lemma ApplySparesThread(s: Store, c: Call, user: string)
    requires Spares(c, user, Authored(ThreadOf(s, c.thread), user, false))
    ensures Authored(ThreadOf(Apply(s, c), c.thread), user, false) == Authored(ThreadOf(s, c.thread), user, false)
  {
    var t := ThreadOf(s, c.thread);
    match c
    case ListComments(_) =>
    case PostComment(_, author, body) =>
      AuthoredAppend(t, Comment(s.nextId, author, body), user, false);
    case PatchComment(_, id, body) =>
      AuthoredPatched(t, id, body, user, false);
      PatchedAbsent(Authored(t, user, false), id, body);
    case DeleteComment(_, id) =>
      AuthoredWithout(t, id, user, false);
      WithoutAbsent(Authored(t, user, false), id);
  }
}
