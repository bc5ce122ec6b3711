/**
 * The community board: posts and their comments. Anyone signed in may post
 * and comment; only the author or an ADMIN may edit or delete a post, or delete
 * a comment. Comments are listed oldest first, a page at a time.
 */
module PostService {
  import opened Wrappers
  import opened Tables
  import opened Entities
  import Numeric

  function PostById(s: Store, id: Id): (r: Option<nat>)
    ensures r.Some? ==> r.value < |s.posts| && s.posts[r.value].id == id
    ensures r.None? ==> forall j :: 0 <= j < |s.posts| ==> s.posts[j].id != id
  {
    FirstIndex(s.posts, (p: Post) => p.id == id)
  }

  function CommentById(s: Store, id: Id): (r: Option<nat>)
    ensures r.Some? ==> r.value < |s.comments| && s.comments[r.value].id == id
    ensures r.None? ==> forall j :: 0 <= j < |s.comments| ==> s.comments[j].id != id
  {
    FirstIndex(s.comments, (c: Comment) => c.id == id)
  }

  /** The ownership rule: an ADMIN, or the row's author. */
  predicate MayModify(actor: Actor, authorId: Id) {
    actor.role == Admin || authorId == actor.id
  }

  datatype PostInput = PostInput(title: Option<string>, content: string, description: Option<string>)

  /** An edit: a field left out keeps its value. */
  datatype PostPatch = PostPatch(title: Option<string>, content: Option<string>, description: Option<string>)

  /** `createPost`: the author and role come from the caller, never from the payload. */
  function CreatePost(s: Store, actor: Actor, input: PostInput, newId: Id): (o: Step<Post>)
    ensures o.result.Ok?
    ensures o.result.value.authorId == actor.id && o.result.value.authorRole == actor.role
    ensures o.result.value.id == newId && o.result.value.title == input.title
    ensures o.result.value.content == input.content && o.result.value.description == input.description
    ensures o.store == s.(posts := s.posts + [o.result.value])
  {
    var p := Post(newId, actor.id, actor.role, input.title, input.content, input.description);
    Step(s.(posts := s.posts + [p]), Ok(p))
  }

  /** The comments of a post, in table order. */
  function CommentsOf(s: Store, postId: Id): (r: seq<Comment>)
    ensures forall c :: c in r <==> c in s.comments && c.postId == postId
  {
    Filter(s.comments, (c: Comment) => c.postId == postId)
  }

  datatype PostView = PostView(post: Post, commentCount: nat)

  /** `getPostById`: the post with its comment count, or 404. */
  function GetPostById(s: Store, postId: Id): (r: Result<PostView, Error>)
    ensures PostById(s, postId).None? <==> r == Err(AppError(404, "Post not found"))
    ensures r.Ok? ==> r.value.post.id == postId && r.value.post in s.posts
    ensures r.Ok? ==> r.value.commentCount == |CommentsOf(s, postId)|
  {
    var i := PostById(s, postId);
    if i.None? then Err(AppError(404, "Post not found"))
    else Ok(PostView(s.posts[i.value], |CommentsOf(s, postId)|))
  }

  /** `updatePost`: 404, then 403 unless author or ADMIN; only title, content and description change. */
  function UpdatePost(s: Store, actor: Actor, postId: Id, patch: PostPatch): (o: Step<Post>)
    ensures o.result.Err? ==> o.store == s
    ensures PostById(s, postId).None? ==> o.result == Err(AppError(404, "Post not found"))
    ensures PostById(s, postId).Some? && !MayModify(actor, s.posts[PostById(s, postId).value].authorId) ==>
      o.result == Err(AppError(403, "Only the author or an admin can update this post"))
    ensures o.result.Ok? <==> PostById(s, postId).Some? && MayModify(actor, s.posts[PostById(s, postId).value].authorId)
    ensures o.result.Ok? ==>
      var i := PostById(s, postId).value;
      var p := s.posts[i];
      var p' := o.result.value;
      && p'.id == p.id && p'.authorId == p.authorId && p'.authorRole == p.authorRole
      && p'.title == (if patch.title.Some? then patch.title else p.title)
      && p'.content == patch.content.GetOr(p.content)
      && p'.description == (if patch.description.Some? then patch.description else p.description)
      && o.store == s.(posts := s.posts[i := p'])
  {
    var i := PostById(s, postId);
    if i.None? then Step(s, Err(AppError(404, "Post not found")))
    else
      var p := s.posts[i.value];
      if !MayModify(actor, p.authorId) then Step(s, Err(AppError(403, "Only the author or an admin can update this post")))
      else
        var p' := p.(title := if patch.title.Some? then patch.title else p.title,
                     content := patch.content.GetOr(p.content),
                     description := if patch.description.Some? then patch.description else p.description);
        Step(s.(posts := s.posts[i.value := p']), Ok(p'))
  }

  /** `deletePost`: the same guard; then the post row goes, and nothing else. */
  function DeletePost(s: Store, actor: Actor, postId: Id): (o: Step<Id>)
    ensures o.result.Err? ==> o.store == s
    ensures PostById(s, postId).None? ==> o.result == Err(AppError(404, "Post not found"))
    ensures PostById(s, postId).Some? && !MayModify(actor, s.posts[PostById(s, postId).value].authorId) ==>
      o.result == Err(AppError(403, "Only the author or an admin can delete this post"))
    ensures o.result.Ok? <==> PostById(s, postId).Some? && MayModify(actor, s.posts[PostById(s, postId).value].authorId)
    ensures o.result.Ok? ==>
      && o.result.value == postId
      && (forall p :: p in o.store.posts <==> p in s.posts && p.id != postId)
      && o.store == s.(posts := o.store.posts)
  {
    var i := PostById(s, postId);
    if i.None? then Step(s, Err(AppError(404, "Post not found")))
    else if !MayModify(actor, s.posts[i.value].authorId) then Step(s, Err(AppError(403, "Only the author or an admin can delete this post")))
    else Step(s.(posts := Filter(s.posts, (p: Post) => p.id != postId)), Ok(postId))
  }

  /** `addComment`: 404 for an unknown post; the comment carries the post and the caller. */
  function AddComment(s: Store, actor: Actor, postId: Id, content: string, newId: Id, now: Instant): (o: Step<Comment>)
    ensures o.result.Err? ==> o.store == s
    ensures o.result.Ok? <==> PostById(s, postId).Some?
    ensures o.result.Err? ==> o.result == Err(AppError(404, "Post not found"))
    ensures o.result.Ok? ==>
      && o.result.value == Comment(newId, postId, actor.id, actor.role, content, now)
      && o.store == s.(comments := s.comments + [o.result.value])
  {
    if PostById(s, postId).None? then Step(s, Err(AppError(404, "Post not found")))
    else
      var c := Comment(newId, postId, actor.id, actor.role, content, now);
      Step(s.(comments := s.comments + [c]), Ok(c))
  }

  // ---- ordering comments by time ----

  ghost predicate OldestFirst(cs: seq<Comment>) {
    forall i, j :: 0 <= i < j < |cs| ==> cs[i].createdAt <= cs[j].createdAt
  }

  /** Places `c` in an oldest-first list. */
  function InsertByTime(c: Comment, sorted: seq<Comment>): (r: seq<Comment>)
    requires OldestFirst(sorted)
    ensures OldestFirst(r)
    ensures multiset(r) == multiset(sorted) + multiset{c}
    ensures forall x :: x in r ==> x == c || x in sorted
  {
    if |sorted| == 0 then [c]
    else if c.createdAt <= sorted[0].createdAt then [c] + sorted
    else
      var rest := InsertByTime(c, sorted[1..]);
      assert sorted == [sorted[0]] + sorted[1..];
      ConsOldestFirst(sorted[0], rest);
      [sorted[0]] + rest
  }

  /** An oldest-first list stays so when an element no newer than all of it goes in front. */
  lemma ConsOldestFirst(h: Comment, rest: seq<Comment>)
    requires OldestFirst(rest)
    requires forall x :: x in rest ==> h.createdAt <= x.createdAt
    ensures OldestFirst([h] + rest)
  {
    var r := [h] + rest;
    forall i, j | 0 <= i < j < |r| ensures r[i].createdAt <= r[j].createdAt {
      if i > 0 {
        assert r[i] == rest[i - 1] && r[j] == rest[j - 1];
      } else {
        assert r[j] == rest[j - 1] && r[j] in rest;
      }
    }
  }

  /** `orderBy: { createdAt: "asc" }`: the same comments, oldest first. */
  function SortByTime(cs: seq<Comment>): (r: seq<Comment>)
    ensures OldestFirst(r)
    ensures multiset(r) == multiset(cs)
    ensures |r| == |cs|
  {
    if |cs| == 0 then []
    else
      assert cs == [cs[0]] + cs[1..];
      InsertByTime(cs[0], SortByTime(cs[1..]))
  }

  datatype CommentPage = CommentPage(items: seq<Comment>, total: nat, totalPages: nat)

  /** `Math.ceil(total / limit)`. */
  function CeilDiv(total: nat, limit: nat): (r: nat)
    requires limit > 0
    ensures (r - 1) * limit < total <= r * limit || (total == 0 && r == 0)
  {
    (total + limit - 1) / limit
  }

  /** `skip`/`take`: the part of `all` that starts after `skip` and holds at most `limit`. */
  function Window<T>(all: seq<T>, skip: nat, limit: nat): (r: seq<T>)
    ensures |r| <= limit
    ensures skip + limit <= |all| ==> |r| == limit
    ensures skip <= |all| ==> |r| == Numeric.Min(limit, |all| - skip)
    ensures skip >= |all| ==> r == []
    ensures forall k :: 0 <= k < |r| ==> skip + k < |all| && r[k] == all[skip + k]
  {
    var lo := if skip <= |all| then skip else |all|;
    var hi := if skip + limit <= |all| then skip + limit else |all|;
    all[lo..hi]
  }

  /** Every element of a window of a sorted list keeps the order. */
  lemma WindowOldestFirst(all: seq<Comment>, skip: nat, limit: nat)
    requires OldestFirst(all)
    ensures OldestFirst(Window(all, skip, limit))
  {
  }

  /**
   * `listComments`: 404 for an unknown post; otherwise the page of the post's
   * comments, oldest first, that starts after `skip` and holds at most `limit`.
   */
  function ListComments(s: Store, postId: Id, skip: nat, limit: nat): (r: Result<CommentPage, Error>)
    requires limit > 0
    ensures PostById(s, postId).None? <==> r == Err(AppError(404, "Post not found"))
    ensures r.Ok? ==>
      && r.value.total == |CommentsOf(s, postId)|
      && r.value.totalPages == CeilDiv(r.value.total, limit)
      && r.value.items == Window(SortByTime(CommentsOf(s, postId)), skip, limit)
      && OldestFirst(r.value.items)
      && (forall c :: c in r.value.items ==> c in s.comments && c.postId == postId)
  {
    if PostById(s, postId).None? then Err(AppError(404, "Post not found"))
    else
      var own := CommentsOf(s, postId);
      var all := SortByTime(own);
      var items := Window(all, skip, limit);
      WindowOldestFirst(all, skip, limit);
      assert forall c :: c in items ==> c in all && c in multiset(own);
      Ok(CommentPage(items, |own|, CeilDiv(|own|, limit)))
  }

  /** `deleteComment`: 404, then 403 unless author or ADMIN; then the comment goes. */
  function DeleteComment(s: Store, actor: Actor, commentId: Id): (o: Step<Id>)
    ensures o.result.Err? ==> o.store == s
    ensures CommentById(s, commentId).None? ==> o.result == Err(AppError(404, "Comment not found"))
    ensures CommentById(s, commentId).Some? && !MayModify(actor, s.comments[CommentById(s, commentId).value].authorId) ==>
      o.result == Err(AppError(403, "Forbidden , Only the author or an admin can delete this comment"))
    ensures o.result.Ok? <==> CommentById(s, commentId).Some? && MayModify(actor, s.comments[CommentById(s, commentId).value].authorId)
    ensures o.result.Ok? ==>
      && o.result.value == commentId
      && (forall c :: c in o.store.comments <==> c in s.comments && c.id != commentId)
      && o.store == s.(comments := o.store.comments)
  {
    var i := CommentById(s, commentId);
    if i.None? then Step(s, Err(AppError(404, "Comment not found")))
    else if !MayModify(actor, s.comments[i.value].authorId) then
      Step(s, Err(AppError(403, "Forbidden , Only the author or an admin can delete this comment")))
    else Step(s.(comments := Filter(s.comments, (c: Comment) => c.id != commentId)), Ok(commentId))
  }
}
