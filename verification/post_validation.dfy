/**
 * The request schemas of the board: bounds on titles, bodies, descriptions and
 * comments, in UTF-16 code units, and what they guarantee about the rows the service stores.
 */
module PostValidation {
  import opened Wrappers
  import opened Schema
  import opened Entities
  import opened PostService

  const MaxTitle := 120
  const MaxContent := 5000
  const MaxDescription := 500
  const MaxComment := 2000

  predicate LongerThan(text: Option<string>, bound: nat) {
    text.Some? && Utf16Len(text.value) > bound
  }

  /** `createPostSchema`: the fields that fail, in schema order. */
  function PostIssues(p: PostInput): (r: seq<string>)
    ensures "title" in r <==> LongerThan(p.title, MaxTitle)
    ensures "content" in r <==> !(1 <= Utf16Len(p.content) <= MaxContent)
    ensures "description" in r <==> LongerThan(p.description, MaxDescription)
    ensures r == [] <==>
      !LongerThan(p.title, MaxTitle) && 1 <= Utf16Len(p.content) <= MaxContent && !LongerThan(p.description, MaxDescription)
  {
    Issue(LongerThan(p.title, MaxTitle), "title")
    + Issue(!(1 <= Utf16Len(p.content) <= MaxContent), "content")
    + Issue(LongerThan(p.description, MaxDescription), "description")
  }

  function ValidatePost(p: PostInput): (r: Result<PostInput, seq<string>>)
    ensures r.Ok? <==> PostIssues(p) == []
    ensures r.Ok? ==> r.value == p
    ensures r.Err? ==> r.error == PostIssues(p)
  {
    var issues := PostIssues(p);
    if issues == [] then Ok(p) else Err(issues)
  }

  /** `updatePostSchema`: every field optional; a content that is sent must be non-empty. */
  function PatchIssues(p: PostPatch): (r: seq<string>)
    ensures "title" in r <==> LongerThan(p.title, MaxTitle)
    ensures "content" in r <==> p.content.Some? && !(1 <= Utf16Len(p.content.value) <= MaxContent)
    ensures "description" in r <==> LongerThan(p.description, MaxDescription)
  {
    Issue(LongerThan(p.title, MaxTitle), "title")
    + Issue(p.content.Some? && !(1 <= Utf16Len(p.content.value) <= MaxContent), "content")
    + Issue(LongerThan(p.description, MaxDescription), "description")
  }

  function ValidatePatch(p: PostPatch): (r: Result<PostPatch, seq<string>>)
    ensures r.Ok? <==> PatchIssues(p) == []
    ensures r.Ok? ==> r.value == p
    ensures r.Err? ==> r.error == PatchIssues(p)
  {
    var issues := PatchIssues(p);
    if issues == [] then Ok(p) else Err(issues)
  }

  /** `createCommentSchema`: 1 to 2000 code units. */
  function ValidateComment(content: string): (r: Result<string, seq<string>>)
    ensures r.Ok? <==> 1 <= Utf16Len(content) <= MaxComment
    ensures r.Ok? ==> r.value == content
    ensures r.Err? ==> r.error == ["content"]
  {
    if 1 <= Utf16Len(content) <= MaxComment then Ok(content) else Err(["content"])
  }

  // ---- what validation buys the stored rows ----

  predicate PostWithinBounds(p: Post) {
    !LongerThan(p.title, MaxTitle) && 1 <= Utf16Len(p.content) <= MaxContent && !LongerThan(p.description, MaxDescription)
  }

  ghost predicate BoardWithinBounds(s: Store) {
    (forall i :: 0 <= i < |s.posts| ==> PostWithinBounds(s.posts[i]))
    && (forall i :: 0 <= i < |s.comments| ==> 1 <= Utf16Len(s.comments[i].content) <= MaxComment)
  }

  /** A post created from a validated payload is within every bound. */
  lemma ValidatedPostIsWithinBounds(s: Store, actor: Actor, p: PostInput, newId: Id)
    requires ValidatePost(p).Ok?
    requires BoardWithinBounds(s)
    ensures PostWithinBounds(CreatePost(s, actor, ValidatePost(p).value, newId).result.value)
    ensures BoardWithinBounds(CreatePost(s, actor, ValidatePost(p).value, newId).store)
  {
  }

  /** Editing a post within bounds with a validated patch keeps it within bounds. */
  lemma ValidatedPatchKeepsBounds(s: Store, actor: Actor, postId: Id, patch: PostPatch)
    requires ValidatePatch(patch).Ok?
    requires BoardWithinBounds(s)
    ensures BoardWithinBounds(UpdatePost(s, actor, postId, ValidatePatch(patch).value).store)
  {
    var o := UpdatePost(s, actor, postId, patch);
    if o.result.Ok? {
      var i := PostById(s, postId).value;
      assert PostWithinBounds(o.result.value);
      assert o.store.posts == s.posts[i := o.result.value];
    }
  }

  /** A validated comment keeps every stored comment within bounds. */
  lemma ValidatedCommentKeepsBounds(s: Store, actor: Actor, postId: Id, content: string, newId: Id, now: Instant)
    requires ValidateComment(content).Ok?
    requires BoardWithinBounds(s)
    ensures BoardWithinBounds(AddComment(s, actor, postId, ValidateComment(content).value, newId, now).store)
  {
  }

  /**
   * The bounds count UTF-16 code units: a title of 61 characters from outside
   * the Basic Multilingual Plane (emoji, say) is over the 120 limit.
   */
  lemma AstralTitleCountsTwice(title: string)
    requires |title| == 61 && forall i :: 0 <= i < |title| ==> Astral(title[i])
    ensures LongerThan(Some(title), MaxTitle)
  {
    Utf16LenAllAstral(title);
  }

  /** An empty update body passes the schema and leaves the post exactly as it was. */
  lemma EmptyPatchChangesNothing(s: Store, actor: Actor, postId: Id)
    requires ValidatePatch(PostPatch(None, None, None)).Ok?
    requires UpdatePost(s, actor, postId, PostPatch(None, None, None)).result.Ok?
    ensures UpdatePost(s, actor, postId, PostPatch(None, None, None)).store == s
  {
    var i := PostById(s, postId).value;
    assert s.posts[i := s.posts[i]] == s.posts;
  }
}
