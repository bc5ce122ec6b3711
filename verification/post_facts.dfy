/** How the board's operations read back through one another. */
module PostFacts {
  import opened Wrappers
  import opened Tables
  import opened Entities
  import opened PostService

  /** After an edit, reading the post back returns the edited row with the same comment count. */
  lemma {:induction false} UpdateThenGet(s: Store, actor: Actor, postId: Id, patch: PostPatch)
    requires UpdatePost(s, actor, postId, patch).result.Ok?
    ensures
      var o := UpdatePost(s, actor, postId, patch);
      GetPostById(o.store, postId) == Ok(PostView(o.result.value, |CommentsOf(s, postId)|))
  {
    var o := UpdatePost(s, actor, postId, patch);
    var i := PostById(s, postId).value;
    assert o.store.posts == s.posts[i := o.result.value];
    FirstIndexSame(s.posts, (p: Post) => p.id == postId, o.store.posts, (p: Post) => p.id == postId);
  }

  /** A deleted post is gone: reading it back is a 404. */
  lemma DeleteThenGet(s: Store, actor: Actor, postId: Id)
    requires DeletePost(s, actor, postId).result.Ok?
    ensures GetPostById(DeletePost(s, actor, postId).store, postId) == Err(AppError(404, "Post not found"))
  {
    var t := DeletePost(s, actor, postId).store;
    assert forall j :: 0 <= j < |t.posts| ==> t.posts[j] in t.posts;
  }

  /** A new comment is the last of its post's comments in table order. */
  lemma {:induction false} AddCommentAppends(s: Store, actor: Actor, postId: Id, content: string, newId: Id, now: Instant)
    requires AddComment(s, actor, postId, content, newId, now).result.Ok?
    ensures
      var o := AddComment(s, actor, postId, content, newId, now);
      CommentsOf(o.store, postId) == CommentsOf(s, postId) + [o.result.value]
  {
    var o := AddComment(s, actor, postId, content, newId, now);
    var c := o.result.value;
    FilterConcat(s.comments, [c], (x: Comment) => x.postId == postId);
    FilterAll([c], (x: Comment) => x.postId == postId);
  }

  /** A comment just added shows up in a first page large enough to hold them all, and the total grows by one. */
  lemma {:induction false} AddCommentIsListed(s: Store, actor: Actor, postId: Id, content: string, newId: Id, now: Instant, limit: nat)
    requires AddComment(s, actor, postId, content, newId, now).result.Ok?
    requires limit > |CommentsOf(s, postId)|
    ensures
      var o := AddComment(s, actor, postId, content, newId, now);
      var l := ListComments(o.store, postId, 0, limit);
      && l.Ok?
      && l.value.total == |CommentsOf(s, postId)| + 1
      && o.result.value in l.value.items
  {
    var o := AddComment(s, actor, postId, content, newId, now);
    var c := o.result.value;
    AddCommentAppends(s, actor, postId, content, newId, now);
    var own := CommentsOf(o.store, postId);
    var all := SortByTime(own);
    assert PostById(o.store, postId).Some? by {
      FirstIndexSame(s.posts, (p: Post) => p.id == postId, o.store.posts, (p: Post) => p.id == postId);
    }
    assert c in multiset(own) by { assert own[|own| - 1] == c; }
    assert c in all;
    var w := Window(all, 0, limit);
    assert w == all by {
      assert |w| == |all|;
      assert forall k :: 0 <= k < |w| ==> w[k] == all[k];
    }
  }

  /** A deleted comment is on no page of any post. */
  lemma DeletedCommentIsNotListed(s: Store, actor: Actor, commentId: Id, postId: Id, skip: nat, limit: nat)
    requires limit > 0
    requires DeleteComment(s, actor, commentId).result.Ok?
    requires ListComments(DeleteComment(s, actor, commentId).store, postId, skip, limit).Ok?
    ensures forall c :: c in ListComments(DeleteComment(s, actor, commentId).store, postId, skip, limit).value.items ==>
      c.id != commentId
  {
  }

  /** Consecutive pages tile the list: the first `k` and the next `m` are the first `k + m`. */
  lemma {:induction false} PagesTile<T>(all: seq<T>, k: nat, m: nat)
    ensures Window(all, 0, k) + Window(all, k, m) == Window(all, 0, k + m)
  {
    var a, b, c := Window(all, 0, k), Window(all, k, m), Window(all, 0, k + m);
    if k >= |all| {
      assert b == [];
      assert |a| == |all| == |c|;
    } else {
      assert |a| == k;
      assert |a + b| == |c|;
      forall j | 0 <= j < |c| ensures (a + b)[j] == c[j] {
        if j >= k {
          assert (a + b)[j] == b[j - k];
        }
      }
    }
  }

  /** Sorting by time neither adds nor drops a comment. */
  lemma {:induction false} SortKeepsComments(cs: seq<Comment>, c: Comment)
    ensures c in SortByTime(cs) <==> c in cs
  {
    var r := SortByTime(cs);
    assert c in r <==> c in multiset(r);
    assert c in cs <==> c in multiset(cs);
  }
}
