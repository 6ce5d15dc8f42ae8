/**
 * The comment table and the queries and updates of the comment repository.
 * Comments form threads through `parentId`; `depth` is the distance from the
 * top-level comment.
 */
module Comments {
  import opened Wrappers
  import opened Ordering

  datatype Comment = Comment(
    id: int,
    postId: int,
    userId: Option<int>,
    parentId: Option<int>,      // None for a top-level comment
    content: string,
    voteCount: int,
    depth: int,
    isDeleted: bool,
    createdAt: int)

  /** The default of validate_depth's max_depth. */
  const DefaultMaxDepth := 5

  /** The single-row UPDATE statements of the repository. */
  datatype Change = SetVoteCount(voteCount: int) | MarkDeleted

  function Apply(c: Comment, ch: Change): Comment {
    match ch
    case SetVoteCount(v) => c.(voteCount := v)
    case MarkDeleted => c.(isDeleted := true)
  }

  function Updated(cs: seq<Comment>, id: int, ch: Change): (r: seq<Comment>)
    ensures |r| == |cs|
    ensures forall i :: 0 <= i < |cs| ==> r[i] == (if cs[i].id == id then Apply(cs[i], ch) else cs[i])
  {
    seq(|cs|, i requires 0 <= i < |cs| => if cs[i].id == id then Apply(cs[i], ch) else cs[i])
  }

  ghost predicate UniqueIds(cs: seq<Comment>) {
    forall i, j :: 0 <= i < j < |cs| ==> cs[i].id != cs[j].id
  }

  function FindComment(cs: seq<Comment>, id: int): (r: Option<Comment>)
    ensures r.Some? ==> r.value in cs && r.value.id == id
    ensures r.None? <==> forall c :: c in cs ==> c.id != id
  {
    if cs == [] then None
    else if cs[0].id == id then Some(cs[0])
    else
      assert forall c :: c in cs && c != cs[0] ==> c in cs[1..];
      FindComment(cs[1..], id)
  }

  /** A single-row update keeps the ids, changes the row with that id and no other. */
  lemma {:induction false} UpdatedFind(cs: seq<Comment>, id: int, ch: Change, q: int)
    requires UniqueIds(cs)
    ensures UniqueIds(Updated(cs, id, ch))
    ensures FindComment(Updated(cs, id, ch), q) ==
      (if q == id && FindComment(cs, q).Some? then Some(Apply(FindComment(cs, q).value, ch)) else FindComment(cs, q))
  {
    var r := Updated(cs, id, ch);
    if cs != [] {
      assert r[1..] == Updated(cs[1..], id, ch);
      UpdatedFind(cs[1..], id, ch, q);
    }
  }

  /** "best": vote_count descending (ties in no stated order). */
  predicate BestFirst(a: Comment, b: Comment) { a.voteCount >= b.voteCount }
  /** "old": created_at ascending. */
  predicate OldestFirst(a: Comment, b: Comment) { a.createdAt <= b.createdAt }
  /** "new" and every other value: created_at descending. */
  predicate NewestFirst(a: Comment, b: Comment) { a.createdAt >= b.createdAt }

  /** The sort parameter is a free string: "best", "old", and anything else means "new". */
  function CommentOrder(sort: string): (Comment, Comment) -> bool {
    if sort == "best" then BestFirst
    else if sort == "old" then OldestFirst
    else NewestFirst
  }

  lemma CommentOrderTotal(sort: string)
    ensures TotalPreorder(CommentOrder(sort))
  {
  }

  /** The rows a query selects, in the order the sort parameter names, before OFFSET/LIMIT. */
  function Selected(cs: seq<Comment>, keep: Comment -> bool, sort: string): (r: seq<Comment>)
    ensures forall c :: c in r <==> c in cs && keep(c)
    ensures SortedBy(r, CommentOrder(sort))
    ensures |r| <= |cs|
  {
    var kept := Filter(cs, keep);
    CommentOrderTotal(sort);
    SortBySorted(kept, CommentOrder(sort));
    SortByMembers(kept, CommentOrder(sort));
    SortBy(kept, CommentOrder(sort))
  }

  /**
   * The shared shape of the comment queries: filter, order by the sort
   * parameter, then OFFSET/LIMIT.
   */
  function Query(cs: seq<Comment>, keep: Comment -> bool, sort: string, skip: nat, limit: nat): (r: seq<Comment>)
    ensures r == Page(Selected(cs, keep, sort), skip, limit)
    ensures forall c :: c in r ==> c in cs && keep(c)
    ensures SortedBy(r, CommentOrder(sort))
    ensures |r| <= limit
    ensures skip == 0 && |cs| <= limit ==> forall c :: c in cs && keep(c) ==> c in r
  {
    var ordered := Selected(cs, keep, sort);
    CommentOrderTotal(sort);
    PageSorted(ordered, skip, limit, CommentOrder(sort));
    PageMembers(ordered, skip, limit);
    assert skip == 0 && |ordered| <= limit ==> Page(ordered, skip, limit) == ordered;
    Page(ordered, skip, limit)
  }

  /** The WHERE clauses of the queries, as named predicates. */
  function OnPost(postId: int, includeDeleted: bool): Comment -> bool {
    (c: Comment) => c.postId == postId && (includeDeleted || !c.isDeleted)
  }

  function RepliesTo(parentId: int, includeDeleted: bool): Comment -> bool {
    (c: Comment) => c.parentId == Some(parentId) && (includeDeleted || !c.isDeleted)
  }

  function TopLevelOn(postId: int, includeDeleted: bool): Comment -> bool {
    (c: Comment) => c.postId == postId && c.parentId.None? && (includeDeleted || !c.isDeleted)
  }

  function ByAuthor(userId: int, includeDeleted: bool): Comment -> bool {
    (c: Comment) => c.userId == Some(userId) && (includeDeleted || !c.isDeleted)
  }

  class CommentRepo {
    var comments: seq<Comment>

    ghost predicate Valid()
      reads this
    {
      UniqueIds(comments)
    }

    constructor ()
      ensures Valid() && comments == []
    {
      comments := [];
    }

    /** get_by_id. */
    function Get(id: int): (r: Option<Comment>)
      reads this
      ensures r.Some? <==> exists c :: c in comments && c.id == id
      ensures r.Some? ==> r.value in comments && r.value.id == id
    {
      FindComment(comments, id)
    }

    /** get_by_post: that post's comments, deleted ones only when asked for, sorted, paginated. */
    function GetByPost(postId: int, sort: string, skip: nat, limit: nat, includeDeleted: bool): (r: seq<Comment>)
      reads this
      ensures forall c :: c in r ==> c in comments && c.postId == postId && (includeDeleted || !c.isDeleted)
      ensures SortedBy(r, CommentOrder(sort))
      ensures |r| <= limit
      ensures r == Page(Selected(comments, OnPost(postId, includeDeleted), sort), skip, limit)
    {
      Query(comments, OnPost(postId, includeDeleted), sort, skip, limit)
    }

    /** get_replies: every child of the parent (no pagination), sorted. */
    function GetReplies(parentId: int, sort: string, includeDeleted: bool): (r: seq<Comment>)
      reads this
      ensures forall c :: c in r <==> c in comments && c.parentId == Some(parentId) && (includeDeleted || !c.isDeleted)
      ensures SortedBy(r, CommentOrder(sort))
      ensures r == Selected(comments, RepliesTo(parentId, includeDeleted), sort)
    {
      Query(comments, RepliesTo(parentId, includeDeleted), sort, 0, |comments|)
    }

    /** get_top_level_comments: that post's comments without a parent, sorted, paginated. */
    function GetTopLevelComments(postId: int, sort: string, skip: nat, limit: nat, includeDeleted: bool): (r: seq<Comment>)
      reads this
      ensures forall c :: c in r ==> c in comments && c.postId == postId && c.parentId.None? && (includeDeleted || !c.isDeleted)
      ensures SortedBy(r, CommentOrder(sort))
      ensures |r| <= limit
      ensures r == Page(Selected(comments, TopLevelOn(postId, includeDeleted), sort), skip, limit)
    {
      Query(comments, TopLevelOn(postId, includeDeleted), sort, skip, limit)
    }

    /** get_by_user: that author's comments, newest first, paginated. */
    function GetByUser(userId: int, skip: nat, limit: nat, includeDeleted: bool): (r: seq<Comment>)
      reads this
      ensures forall c :: c in r ==> c in comments && c.userId == Some(userId) && (includeDeleted || !c.isDeleted)
      ensures SortedBy(r, NewestFirst)
      ensures |r| <= limit
      ensures r == Page(Selected(comments, ByAuthor(userId, includeDeleted), "new"), skip, limit)
    {
      Query(comments, ByAuthor(userId, includeDeleted), "new", skip, limit)
    }

    method UpdateRow(commentId: int, ch: Change) returns (found: bool)
      requires Valid()
      modifies this
      ensures Valid()
      ensures found <==> old(Get(commentId)).Some?
      ensures comments == Updated(old(comments), commentId, ch)
      ensures Get(commentId) == if found then Some(Apply(old(Get(commentId)).value, ch)) else None
      ensures forall q :: q != commentId ==> Get(q) == old(Get(q))
    {
      found := FindComment(comments, commentId).Some?;
      var before := comments;
      comments := Updated(comments, commentId, ch);
      UpdatedFind(before, commentId, ch, commentId);
      forall q | q != commentId ensures FindComment(comments, q) == FindComment(before, q) {
        UpdatedFind(before, commentId, ch, q);
      }
    }

    /** update_vote_count: sets only vote_count of that comment; true iff it exists. */
    method UpdateVoteCount(commentId: int, newVoteCount: int) returns (found: bool)
      requires Valid()
      modifies this
      ensures Valid()
      ensures found <==> old(Get(commentId)).Some?
      ensures found ==> Get(commentId) == Some(old(Get(commentId)).value.(voteCount := newVoteCount))
      ensures forall q :: q != commentId ==> Get(q) == old(Get(q))
      ensures comments == Updated(old(comments), commentId, SetVoteCount(newVoteCount))
    {
      found := UpdateRow(commentId, SetVoteCount(newVoteCount));
    }

    /** soft_delete: sets only is_deleted of that comment; true iff it exists. */
    method SoftDelete(commentId: int) returns (found: bool)
      requires Valid()
      modifies this
      ensures Valid()
      ensures found <==> old(Get(commentId)).Some?
      ensures found ==> Get(commentId) == Some(old(Get(commentId)).value.(isDeleted := true))
      ensures forall q :: q != commentId ==> Get(q) == old(Get(q))
      ensures comments == Updated(old(comments), commentId, MarkDeleted)
    {
      found := UpdateRow(commentId, MarkDeleted);
    }

    /**
     * validate_depth: a top-level comment is valid at depth 0; a missing
     * parent gives (false, -1); otherwise the reply sits one below its parent
     * and is valid iff that depth is at most max_depth.
     */
    function ValidateDepth(parentId: Option<int>, maxDepth: int): (r: (bool, int))
      reads this
      ensures parentId.None? ==> r == (true, 0)
      ensures parentId.Some? && Get(parentId.value).None? ==> r == (false, -1)
      ensures parentId.Some? && Get(parentId.value).Some? ==>
        && r.1 == Get(parentId.value).value.depth + 1
        && (r.0 <==> Get(parentId.value).value.depth + 1 <= maxDepth)
    {
      if parentId.None? then (true, 0)
      else match Get(parentId.value)
        case None => (false, -1)
        case Some(parent) => (parent.depth + 1 <= maxDepth, parent.depth + 1)
    }
  }

  /**
   * With the default bound, a reply below a comment at depth 5 or more is
   * refused, and a reply below a shallower comment is accepted.
   */
  lemma DepthBound(repo: CommentRepo, parentId: int)
    requires repo.Get(parentId).Some?
    ensures repo.ValidateDepth(Some(parentId), DefaultMaxDepth).0 <==> repo.Get(parentId).value.depth < 5
  {
  }
}
