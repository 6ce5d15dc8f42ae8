/**
 * The post service: creating a post with its topics, the owner's edit, the
 * soft delete by owner or moderator, the feed with the caller's own votes,
 * and search. Every listed topic id must exist, checked by comparing the
 * number of rows found with the number of ids sent.
 */
module PostService {
  import opened Wrappers
  import opened Ordering
  import opened Posts
  import Topics
  import PostVotes
  import VoteRows
  import BaseService

  /** The bounds of the post payloads. */
  const MinTitleLength := 5
  const MaxTitleLength := 255
  const MinContentLength := 10
  const MaxTopics := 5

  predicate ValidTitle(title: string) { MinTitleLength <= |title| <= MaxTitleLength }
  predicate ValidContent(content: string) { |content| >= MinContentLength }

  /** A PostCreate payload; validating it checks all three fields. */
  datatype PostCreate = PostCreate(title: string, content: string, topicIds: seq<int>)

  predicate ValidPostCreate(d: PostCreate) {
    ValidTitle(d.title) && ValidContent(d.content) && 1 <= |d.topicIds| <= MaxTopics
  }

  /** A PostUpdate payload: only the fields that are given change. */
  datatype PostUpdate = PostUpdate(title: Option<string>, content: Option<string>, topicIds: Option<seq<int>>)

  /** Validating the field part of a PostUpdate (the topic list is left out of that dump). */
  predicate ValidFields(d: PostUpdate) {
    (d.title.Some? ==> ValidTitle(d.title.value)) && (d.content.Some? ==> ValidContent(d.content.value))
  }

  function FoundIds(found: seq<Topics.Topic>): set<int> {
    set t | t in found :: t.id
  }

  function NotAmong(foundIds: set<int>): int -> bool {
    (i: int) => i !in foundIds
  }

  /** The listed ids that are not among the ids of the rows found, in request order. */
  function Missing(found: seq<Topics.Topic>, ids: seq<int>): (r: seq<int>)
    ensures forall i :: i in r <==> i in ids && forall t :: t in found ==> t.id != i
  {
    Filter(ids, NotAmong(FoundIds(found)))
  }

  /**
   * The list keeps request order and repeats: one more listed id adds itself
   * at the end exactly when no row has it.
   */
  lemma {:induction false} MissingInOrder(found: seq<Topics.Topic>, ids: seq<int>, i: int)
    ensures Missing(found, ids + [i]) ==
      Missing(found, ids) + (if forall t :: t in found ==> t.id != i then [i] else [])
  {
    var keep := NotAmong(FoundIds(found));
    FilterAppend(ids, [i], keep);
    assert [i][1..] == [];
    assert keep(i) <==> forall t :: t in found ==> t.id != i;
  }

  /** The topic check: the rows found must be as many as the ids listed. */
  function TopicCheck(found: seq<Topics.Topic>, ids: seq<int>): Outcome {
    if |found| != |ids| then Fail(BadRequest(Missing(found, ids))) else Pass
  }

  /** Every listed topic exists. */
  ghost predicate AllExist(repo: Topics.TopicRepo, ids: seq<int>)
    reads repo
  {
    forall i :: i in ids ==> exists t :: t in repo.topics && t.id == i
  }

  /**
   * The topic check passes exactly when every listed id exists and no id is
   * listed twice.
   */
  lemma TopicCheckMeaning(repo: Topics.TopicRepo, ids: seq<int>)
    requires repo.Valid()
    ensures TopicCheck(repo.GetAllByIds(ids), ids) == Pass <==> AllExist(repo, ids) && Distinct(ids)
  {
    var found := set t | t in repo.topics && t.id in ids :: t.id;
    var listed := set i | i in ids;
    assert found <= listed;
    assert |listed| == |found| + |listed - found| by {
      assert listed == found + (listed - found);
    }
    DistinctCard(ids);
    if |found| == |ids| {
      SubsetCard(found, listed);
      forall i | i in ids ensures exists t :: t in repo.topics && t.id == i {
        assert i in listed;
      }
    }
    if AllExist(repo, ids) && Distinct(ids) {
      forall i | i in listed ensures i in found {
        var t :| t in repo.topics && t.id == i;
      }
      assert found == listed;
    }
  }

  /** What the BadRequest lists is exactly the listed ids that do not exist. */
  lemma MissingMeaning(repo: Topics.TopicRepo, ids: seq<int>)
    requires repo.Valid()
    ensures forall i :: i in Missing(repo.GetAllByIds(ids), ids) <==> i in ids && repo.Get(i).None?
  {
  }

  /**
   * Listing an existing topic twice fails the check, yet no id is reported
   * missing: the client is told about an empty list of unknown topics.
   */
  lemma DuplicateIdsReportNothingMissing(repo: Topics.TopicRepo, ids: seq<int>)
    requires repo.Valid()
    requires AllExist(repo, ids) && !Distinct(ids)
    ensures TopicCheck(repo.GetAllByIds(ids), ids) == Fail(BadRequest([]))
  {
    TopicCheckMeaning(repo, ids);
    MissingMeaning(repo, ids);
    var m := Missing(repo.GetAllByIds(ids), ids);
    if m != [] {
      assert m[0] in m;
      var t :| t in repo.topics && t.id == m[0];
    }
  }

  /** The id is listed more than once. */
  ghost predicate Repeated(ids: seq<int>, i: int) {
    exists j, k :: 0 <= j < k < |ids| && ids[j] == i && ids[k] == i
  }

  /**
   * The list the BadRequest message promises for every refused topic list:
   * the listed ids that do not exist together with those listed twice, in
   * request order.
   */
  ghost function Offending(found: seq<Topics.Topic>, ids: seq<int>): (r: seq<int>)
    ensures forall i :: i in r <==> i in ids && ((forall t :: t in found ==> t.id != i) || Repeated(ids, i))
  {
    Filter(ids, (i: int) => i !in FoundIds(found) || Repeated(ids, i))
  }

  /** The documented list is empty exactly when the topic check passes. */
  lemma OffendingMeaning(repo: Topics.TopicRepo, ids: seq<int>)
    requires repo.Valid()
    ensures Offending(repo.GetAllByIds(ids), ids) == [] <==> TopicCheck(repo.GetAllByIds(ids), ids) == Pass
  {
    TopicCheckMeaning(repo, ids);
    var found := repo.GetAllByIds(ids);
    var o := Offending(found, ids);
    if o == [] {
      forall i | i in ids ensures exists t :: t in repo.topics && t.id == i {
        assert i !in o;
        var t :| t in found && t.id == i;
      }
      forall j, k | 0 <= j < k < |ids| ensures ids[j] != ids[k] {
        assert ids[j] in ids && ids[j] !in o;
      }
    } else {
      assert o[0] in o;
    }
  }

  /**
   * Where the code and the message part: an existing topic listed twice is
   * refused, the documented list names it, and the code's list is empty.
   */
  lemma RepeatedIdGoesUnnamed(repo: Topics.TopicRepo, ids: seq<int>, j: int, k: int)
    requires repo.Valid() && AllExist(repo, ids)
    requires 0 <= j < k < |ids| && ids[j] == ids[k]
    ensures Missing(repo.GetAllByIds(ids), ids) == []
    ensures ids[j] in Offending(repo.GetAllByIds(ids), ids)
  {
    assert !Distinct(ids);
    DuplicateIdsReportNothingMissing(repo, ids);
    assert Repeated(ids, ids[j]);
  }

  /** A feed entry: the post and, for a signed-in caller, their vote on it. */
  datatype FeedItem = FeedItem(post: Post, userVote: Option<int>)

  /** Python truthiness of `current_user_id and posts`: no caller, caller id 0 or an empty page attach nothing. */
  predicate Attaches(currentUserId: Option<int>, page: seq<Post>) {
    currentUserId.Some? && currentUserId.value != 0 && page != []
  }

  class PostService {
    const posts: PostRepo
    const topics: Topics.TopicRepo
    const votes: PostVotes.PostVoteRepo

    constructor (posts: PostRepo, topics: Topics.TopicRepo, votes: PostVotes.PostVoteRepo)
      ensures this.posts == posts && this.topics == topics && this.votes == votes
    {
      this.posts, this.topics, this.votes := posts, topics, votes;
    }

    /**
     * create_post: the topic check, then the payload is validated again, then
     * the post is inserted and linked to every listed topic.
     */
    method CreatePost(userId: int, data: PostCreate, now: int) returns (r: Result<Post>)
      requires posts.Valid() && topics.Valid()
      modifies posts
      ensures posts.Valid()
      ensures TopicCheck(topics.GetAllByIds(data.topicIds), data.topicIds).Fail? ==>
        && r == Err(TopicCheck(topics.GetAllByIds(data.topicIds), data.topicIds).error)
        && posts.posts == old(posts.posts) && posts.links == old(posts.links)
      ensures TopicCheck(topics.GetAllByIds(data.topicIds), data.topicIds) == Pass && !ValidPostCreate(data) ==>
        && r.Err? && r.error.ValidationError?
        && posts.posts == old(posts.posts) && posts.links == old(posts.links)
      ensures TopicCheck(topics.GetAllByIds(data.topicIds), data.topicIds) == Pass && ValidPostCreate(data) ==>
        && r == Ok(NewPost(old(posts.nextId), userId, data.title, data.content, now))
        && posts.posts == old(posts.posts) + [r.value]
        && forall l :: l in posts.links <==> l in old(posts.links) || (l.0 == r.value.id && l.1 in data.topicIds)
    {
      var found := topics.GetAllByIds(data.topicIds);
      var check := TopicCheck(found, data.topicIds);
      if check.Fail? {
        return Err(check.error);
      }
      if !ValidPostCreate(data) {
        return Err(ValidationError("PostCreate"));
      }
      var post := posts.CreateOne(userId, data.title, data.content, now);
      var _ := posts.AssociateTopics(post.id, data.topicIds);
      r := Ok(post);
    }

    /**
     * The topic part of update_post: the check, then every old link of the
     * post is dropped before the new ones are inserted. A list that is not
     * 1..5 long fails the insert after the old links are gone.
     */
    method ReplaceTopics(postId: int, ids: seq<int>) returns (r: Outcome)
      requires topics.Valid()
      modifies posts`links
      ensures TopicCheck(topics.GetAllByIds(ids), ids).Fail? ==>
        r == TopicCheck(topics.GetAllByIds(ids), ids) && posts.links == old(posts.links)
      ensures TopicCheck(topics.GetAllByIds(ids), ids) == Pass && !(1 <= |ids| <= MaxTopics) ==>
        && r == Fail(ValueError("Must provide between 1 and 5 topic IDs"))
        && forall l :: l in posts.links <==> l in old(posts.links) && l.0 != postId
      ensures TopicCheck(topics.GetAllByIds(ids), ids) == Pass && 1 <= |ids| <= MaxTopics ==>
        && r == Pass
        && forall l :: l in posts.links <==> (l in old(posts.links) && l.0 != postId) || (l.0 == postId && l.1 in ids)
    {
      var found := topics.GetAllByIds(ids);
      r := TopicCheck(found, ids);
      if r.Fail? {
        return;
      }
      posts.RemoveAssociations(postId);
      r := posts.AssociateTopics(postId, ids);
    }

    /**
     * update_post: NotFound, then only the author may edit; a topic list is
     * checked and replaces the old links; then the given fields are validated
     * and written. A topic list of the wrong length fails after the old links
     * were removed, leaving the post with none; a field validation failure
     * after the links were replaced leaves them replaced.
     */
    method UpdatePost(postId: int, userId: int, data: PostUpdate) returns (r: Result<Post>)
      requires posts.Valid() && topics.Valid()
      modifies posts
      ensures posts.Valid()
      ensures old(posts.Get(postId)).None? ==>
        r == Err(NotFound("Post")) && posts.posts == old(posts.posts) && posts.links == old(posts.links)
      ensures old(posts.Get(postId)).Some? && old(posts.Get(postId)).value.userId != Some(userId) ==>
        r == Err(Forbidden) && posts.posts == old(posts.posts) && posts.links == old(posts.links)
      ensures r.Err? ==> r.error.NotFound? || r.error.Forbidden? || r.error.BadRequest? || r.error.ValueError? || r.error.ValidationError?
      ensures r.Err? && r.error.BadRequest? ==> posts.links == old(posts.links)
      ensures r.Err? && r.error.ValueError? ==>
        && data.topicIds.Some?
        && forall l :: l in posts.links <==> l in old(posts.links) && l.0 != postId
      ensures r.Err? && r.error.ValidationError? ==>
        && (data.topicIds.None? ==> posts.links == old(posts.links))
        && (data.topicIds.Some? ==> forall l :: l in posts.links <==>
              (l in old(posts.links) && l.0 != postId) || (l.0 == postId && l.1 in data.topicIds.value))
      ensures r.Err? ==> posts.posts == old(posts.posts)
      ensures r.Ok? ==>
        && old(posts.Get(postId)).Some? && old(posts.Get(postId)).value.userId == Some(userId)
        && ValidFields(data)
        && r.value == Apply(old(posts.Get(postId)).value, Edit(data.title, data.content))
        && posts.Get(postId) == Some(r.value)
        && (forall q :: q != postId ==> posts.Get(q) == old(posts.Get(q)))
        && (data.topicIds.None? ==> posts.links == old(posts.links))
        && (data.topicIds.Some? ==> forall l :: l in posts.links <==>
              (l in old(posts.links) && l.0 != postId) || (l.0 == postId && l.1 in data.topicIds.value))
    {
      var found := BaseService.GetOr404(posts.Get(postId), "Post");
      if found.Err? {
        return Err(found.error);
      }
      var own := BaseService.VerifyOwnership(BaseService.OwnerAttr(found.value.userId), userId, "post");
      if own.Fail? {
        return Err(own.error);
      }
      if data.topicIds.Some? {
        var replaced := ReplaceTopics(postId, data.topicIds.value);
        if replaced.Fail? {
          return Err(replaced.error);
        }
      }
      var post := found.value;
      if data.title.Some? || data.content.Some? {
        if !ValidFields(data) {
          return Err(ValidationError("PostUpdate"));
        }
        var _ := posts.UpdateRow(postId, Edit(data.title, data.content));
        post := posts.Get(postId).value;
      }
      r := Ok(post);
    }

    /** delete_post: NotFound, then the author or a moderator or admin; the post is soft-deleted. */
    method DeletePost(postId: int, userId: int, userRole: string) returns (r: Outcome)
      requires posts.Valid()
      modifies posts`posts
      ensures posts.Valid()
      ensures old(posts.Get(postId)).None? ==> r == Fail(NotFound("Post")) && posts.posts == old(posts.posts)
      ensures old(posts.Get(postId)).Some? ==>
        (r == Pass <==> old(posts.Get(postId)).value.userId == Some(userId) || BaseService.IsPrivileged(userRole))
      ensures old(posts.Get(postId)).Some? && r.Fail? ==> r.error == Forbidden && posts.posts == old(posts.posts)
      ensures r == Pass ==>
        && posts.posts == Updated(old(posts.posts), postId, MarkDeleted)
        && posts.Get(postId) == Some(old(posts.Get(postId)).value.(isDeleted := true))
    {
      var found := BaseService.GetOr404(posts.Get(postId), "Post");
      if found.Err? {
        return Fail(found.error);
      }
      r := BaseService.VerifyModeratorOrOwner(BaseService.OwnerAttr(found.value.userId), userId, userRole, "post");
      if r.Fail? {
        return;
      }
      var _ := posts.SoftDelete(postId);
    }

    /** get_post_detail: the post, deleted or not, or NotFound. */
    function GetPostDetail(postId: int): (r: Result<Post>)
      reads posts
      requires posts.Valid()
      ensures r.Ok? <==> exists p :: p in posts.posts && p.id == postId
      ensures r.Ok? ==> r.value in posts.posts && r.value.id == postId
      ensures r.Err? ==> r.error == NotFound("Post")
    {
      BaseService.GetOr404(posts.Get(postId), "Post")
    }

    /**
     * The vote lookup of get_feed: for a signed-in caller and a non-empty
     * page, each post carries the caller's stored vote on it, if any; one
     * batched query fetches them all.
     */
    method WithVotes(page: seq<Post>, currentUserId: Option<int>) returns (items: seq<FeedItem>)
      requires votes.Valid()
      ensures |items| == |page|
      ensures forall i :: 0 <= i < |items| ==>
        && items[i].post == page[i]
        && items[i].userVote ==
             (if Attaches(currentUserId, page) then VoteRows.Find(votes.rows, currentUserId.value, page[i].id) else None)
    {
      if !(currentUserId.Some? && currentUserId.value != 0 && |page| > 0) {
        return seq(|page|, i requires 0 <= i < |page| => FeedItem(page[i], None));
      }
      var userId := currentUserId.value;
      var postIds := seq(|page|, i requires 0 <= i < |page| => page[i].id);
      var voteMap := votes.GetUserVotesForPosts(userId, postIds);
      items := [];
      var i := 0;
      while i < |page|
        invariant 0 <= i <= |page|
        invariant |items| == i
        invariant forall k :: 0 <= k < i ==>
          items[k].post == page[k] && items[k].userVote == VoteRows.Find(votes.rows, userId, page[k].id)
      {
        var p := page[i];
        assert postIds[i] == p.id;
        var v: Option<int> := None;
        if p.id in voteMap {
          v := Some(voteMap[p.id]);
          VoteRows.FindUnique(votes.rows, userId, p.id, voteMap[p.id]);
        }
        items := items + [FeedItem(p, v)];
        i := i + 1;
      }
    }

    /**
     * get_feed: a page of non-deleted posts in feed order; for a signed-in
     * caller each post carries the caller's vote on it, if any.
     */
    method GetFeed(sort: FeedSort, topicIds: Option<seq<int>>, skip: nat, limit: nat,
                   currentUserId: Option<int>, score: Post -> real) returns (items: seq<FeedItem>)
      requires votes.Valid()
      ensures var page := posts.GetFeed(sort, topicIds, skip, limit, false, score);
        && |items| == |page|
        && forall i :: 0 <= i < |items| ==>
          && items[i].post == page[i]
          && items[i].userVote ==
               (if Attaches(currentUserId, page) then VoteRows.Find(votes.rows, currentUserId.value, page[i].id) else None)
    {
      var page := posts.GetFeed(sort, topicIds, skip, limit, false, score);
      items := WithVotes(page, currentUserId);
    }

    /** search_posts: page (skip, limit) of the non-deleted matching posts, title matches first. */
    function SearchPosts(query: string, skip: nat, limit: nat): (r: seq<Post>)
      reads posts
      ensures r == Page(posts.SearchRows(query, false), skip, limit)
      ensures forall p :: p in r ==> p in posts.posts && !p.isDeleted && (Matches(p.title, query) || Matches(p.content, query))
      ensures SortedBy(r, (a, b) => SearchFirst(query, a, b))
      ensures |r| <= limit
    {
      posts.Search(query, skip, limit, false)
    }

    /** increment_view_count: one more view on that post, if it exists. */
    method IncrementViewCount(postId: int)
      requires posts.Valid()
      modifies posts`posts
      ensures posts.Valid()
      ensures posts.posts == Updated(old(posts.posts), postId, BumpViews)
    {
      var _ := posts.IncrementViewCount(postId);
    }
  }
}
