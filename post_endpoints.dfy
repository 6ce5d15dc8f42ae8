/**
 * The post endpoints that add rules of their own on top of the post service:
 * the look-ahead pagination of the feed and of search, the view-count rule of
 * the single-post page, and the report endpoint, whose target is fixed by
 * the path whatever the request body says.
 */
module PostEndpoints {
  import opened Wrappers
  import opened Ordering
  import opened Posts
  import PostService
  import VoteRows
  import ReportSchemas
  import Reports
  import ReportService

  /** The bounds of the `limit` and `offset` query parameters. */
  const MinPageLimit := 1
  const MaxPageLimit := 100
  /** The shortest search query accepted. */
  const MinQueryLength := 3

  /** Query(ge=1, le=100) on limit and Query(ge=0) on offset. */
  function CheckPage(limit: int, offset: int): (r: Outcome)
    ensures r == Pass <==> MinPageLimit <= limit <= MaxPageLimit && offset >= 0
    ensures r.Fail? ==> r.error.ValidationError?
  {
    if limit < MinPageLimit || limit > MaxPageLimit then Fail(ValidationError("limit"))
    else if offset < 0 then Fail(ValidationError("offset"))
    else Pass
  }

  /** `[topic_id] if topic_id else None`: an absent topic id and topic id 0 both mean no filter. */
  function FeedTopics(topicId: Option<int>): (r: Option<seq<int>>)
    ensures r.Some? <==> topicId.Some? && topicId.value != 0
    ensures r.Some? ==> r.value == [topicId.value]
  {
    if topicId.Some? && topicId.value != 0 then Some([topicId.value]) else None
  }

  /** A feed response: the page, the number of posts on it and whether more follow. */
  datatype FeedPage = FeedPage(posts: seq<PostService.FeedItem>, total: int, hasMore: bool)

  /** A search response: the page, the query, the number of posts on it and whether more follow. */
  datatype SearchPage = SearchPage(posts: seq<Post>, query: string, total: int, hasMore: bool)

  /**
   * The handler passes at most one topic id, so the join yields one row per
   * post and the page fetched is page (skip, limit) of the feed.
   */
  lemma SingleTopicFeed(repo: PostRepo, sort: FeedSort, topicId: Option<int>, skip: nat, limit: nat, score: Post -> real)
    requires repo.Valid()
    ensures repo.GetFeed(sort, FeedTopics(topicId), skip, limit, false, score) ==
      Page(repo.Feed(sort, FeedTopics(topicId), false, score), skip, limit)
  {
    assert |TopicFilter(FeedTopics(topicId))| <= 1;
  }

  /** The service attaches votes for a signed-in caller whose id is not 0. */
  predicate SignedIn(currentUserId: Option<int>) {
    currentUserId.Some? && currentUserId.value != 0
  }

  /**
   * Cutting the look-ahead fetch back to `limit` items gives page (skip,
   * limit) with the caller's votes; the fetch had an item more than that
   * exactly when the rows go on after the page.
   */
  lemma CutBack(items: seq<PostService.FeedItem>, rows: seq<Post>, skip: nat, limit: nat,
                votes: seq<VoteRows.Vote>, currentUserId: Option<int>)
    requires var long := Page(rows, skip, limit + 1);
      && |items| == |long|
      && forall i :: 0 <= i < |items| ==>
           && items[i].post == long[i]
           && items[i].userVote ==
                (if PostService.Attaches(currentUserId, long) then VoteRows.Find(votes, currentUserId.value, long[i].id) else None)
    ensures var page, shown := Page(rows, skip, limit), Take(items, limit);
      && |shown| == |page|
      && (forall i :: 0 <= i < |page| ==>
            && shown[i].post == page[i]
            && shown[i].userVote ==
                 (if SignedIn(currentUserId) then VoteRows.Find(votes, currentUserId.value, page[i].id) else None))
      && (|items| > limit <==> |rows| > skip + limit)
  {
    LookAheadPage(rows, skip, limit);
    var long, page, shown := Page(rows, skip, limit + 1), Page(rows, skip, limit), Take(items, limit);
    forall i | 0 <= i < |page|
      ensures shown[i].post == page[i]
      ensures shown[i].userVote ==
        (if SignedIn(currentUserId) then VoteRows.Find(votes, currentUserId.value, page[i].id) else None)
    {
      assert shown[i] == items[i];
      assert page[i] == rows[skip + i] == long[i];
      assert long != [];
    }
  }

  /**
   * get_posts: one post more than a page is fetched and cut back. The
   * response is exactly page (offset, limit) of the feed, `total` counts the
   * posts on it, and `has_more` says whether the feed goes on after it.
   */
  method GetPosts(service: PostService.PostService, currentUserId: Option<int>, sort: FeedSort,
                  topicId: Option<int>, limit: int, offset: int, score: Post -> real) returns (r: Result<FeedPage>)
    requires service.votes.Valid() && service.posts.Valid()
    ensures CheckPage(limit, offset).Fail? ==> r == Err(CheckPage(limit, offset).error)
    ensures CheckPage(limit, offset) == Pass ==>
      var rows := service.posts.Feed(sort, FeedTopics(topicId), false, score);
      var page := Page(rows, offset, limit);
      && r.Ok?
      && |r.value.posts| == |page|
      && (forall i :: 0 <= i < |page| ==>
            && r.value.posts[i].post == page[i]
            && r.value.posts[i].userVote ==
                 (if SignedIn(currentUserId) then VoteRows.Find(service.votes.rows, currentUserId.value, page[i].id) else None))
      && r.value.total == |page|
      && (r.value.hasMore <==> |rows| > offset + limit)
  {
    var check := CheckPage(limit, offset);
    if check.Fail? {
      return Err(check.error);
    }
    var fetched := service.GetFeed(sort, FeedTopics(topicId), offset, limit + 1, currentUserId, score);
    var hasMore := |fetched| > limit;
    var shown := Take(fetched, limit);
    ghost var rows := service.posts.Feed(sort, FeedTopics(topicId), false, score);
    SingleTopicFeed(service.posts, sort, topicId, offset, limit + 1, score);
    CutBack(fetched, rows, offset, limit, service.votes.rows, currentUserId);
    r := Ok(FeedPage(shown, |shown|, hasMore));
  }

  /**
   * search_posts: the query must have at least three characters. The
   * response is page (offset, limit) of the matching posts; `total` is
   * computed from the look-ahead fetch and equals the number of posts shown.
   */
  function SearchPosts(service: PostService.PostService, q: string, limit: int, offset: int): (r: Result<SearchPage>)
    reads service.posts
    ensures r.Err? <==> |q| < MinQueryLength || CheckPage(limit, offset).Fail?
    ensures r.Err? ==> r.error.ValidationError?
    ensures r.Ok? ==>
      var rows := service.posts.SearchRows(q, false);
      && r.value.posts == Page(rows, offset, limit)
      && r.value.query == q
      && r.value.total == |r.value.posts|
      && (r.value.hasMore <==> |rows| > offset + limit)
  {
    if |q| < MinQueryLength then Err(ValidationError("q"))
    else match CheckPage(limit, offset)
      case Fail(e) => Err(e)
      case Pass =>
        var fetched := service.SearchPosts(q, offset, limit + 1);
        LookAheadPage(service.posts.SearchRows(q, false), offset, limit);
        Ok(SearchPage(Take(fetched, limit), q,
                      if |fetched| > limit then |fetched| - 1 else |fetched|,
                      |fetched| > limit))
  }

  /**
   * The view rule of get_post: a view is counted unless the viewer is signed
   * in and is the author. A post whose author is gone counts every view.
   */
  predicate CountsView(viewerId: Option<int>, authorId: Option<int>) {
    viewerId.None? || Some(viewerId.value) != authorId
  }

  /**
   * The rule as written counts anonymous views, although the handler's own
   * description says an anonymous view is not counted; only the author's own
   * views are skipped.
   */
  lemma ViewRule(viewerId: Option<int>, authorId: Option<int>)
    ensures !CountsView(viewerId, authorId) <==> viewerId.Some? && authorId == viewerId
    ensures CountsView(None, authorId)
    ensures authorId.None? ==> CountsView(viewerId, authorId)
  {
  }

  /** The rule as the handler describes it: only a signed-in viewer who is not the author is counted. */
  predicate CountsViewDocumented(viewerId: Option<int>, authorId: Option<int>): (counted: bool)
    ensures counted ==> viewerId.Some? && CountsView(viewerId, authorId)
  {
    viewerId.Some? && Some(viewerId.value) != authorId
  }

  /** The code and its description part exactly on anonymous views: the code counts them, the description does not. */
  lemma ViewRuleAgainstDocumented(viewerId: Option<int>, authorId: Option<int>)
    ensures CountsView(viewerId, authorId) != CountsViewDocumented(viewerId, authorId) <==> viewerId.None?
    ensures CountsView(None, authorId) && !CountsViewDocumented(None, authorId)
  {
  }

  /**
   * get_post: NotFound for a missing id, deleted posts included otherwise;
   * the post's view count goes up by one unless the viewer is its author.
   * The post returned is the row as read before the increment.
   */
  method GetPost(service: PostService.PostService, postId: int, viewerId: Option<int>) returns (r: Result<Post>)
    requires service.posts.Valid()
    modifies service.posts`posts
    ensures service.posts.Valid()
    ensures old(service.posts.Get(postId)).None? ==>
      r == Err(NotFound("Post")) && service.posts.posts == old(service.posts.posts)
    ensures old(service.posts.Get(postId)).Some? ==>
      && r == Ok(old(service.posts.Get(postId)).value)
      && service.posts.posts ==
           if CountsView(viewerId, r.value.userId) then Updated(old(service.posts.posts), postId, BumpViews)
           else old(service.posts.posts)
  {
    r := service.GetPostDetail(postId);
    if r.Err? {
      return;
    }
    if viewerId.None? || Some(viewerId.value) != r.value.userId {
      service.IncrementViewCount(postId);
    }
  }

  /**
   * The decision report_post documents: a 404 for a post that does not
   * exist, and otherwise the service's decision.
   */
  function ReportDecisionDocumented(posts: seq<Post>, rs: seq<Reports.Report>, reporterId: int, postId: int,
                                    reason: string, details: Option<string>, now: int): (r: Result<ReportSchemas.ReportCreate>)
    ensures FindPost(posts, postId).None? ==> r == Err(NotFound("Post"))
    ensures FindPost(posts, postId).Some? ==> r == ReportService.Admit(rs, reporterId, "post", postId, reason, details, now)
  {
    if FindPost(posts, postId).None? then Err(NotFound("Post"))
    else ReportService.Admit(rs, reporterId, "post", postId, reason, details, now)
  }

  /**
   * The code and the documented 404 part exactly on a missing post: the code
   * never answers NotFound, so a report on a missing post id is decided as
   * any other.
   */
  lemma ReportDecisionAgainstDocumented(posts: seq<Post>, rs: seq<Reports.Report>, reporterId: int, postId: int,
                                        reason: string, details: Option<string>, now: int)
    ensures ReportService.Admit(rs, reporterId, "post", postId, reason, details, now) !=
            ReportDecisionDocumented(posts, rs, reporterId, postId, reason, details, now)
            <==> forall p :: p in posts ==> p.id != postId
  {
    var code := ReportService.Admit(rs, reporterId, "post", postId, reason, details, now);
    assert code != Err(NotFound("Post")) by {
      if !ReportService.ReportedSince(rs, reporterId, "post", postId, now - ReportService.DuplicateWindow) {
        var made := ReportSchemas.MakeReportCreate("post", postId, reason, details);
        assert made.Err? ==> made.error.ValidationError?;
      }
    }
  }

  /**
   * report_post: the body is validated as a ReportCreate, but the report
   * filed always targets the post in the path; the body's own target fields
   * are ignored. The post is not looked up, so a missing post can be
   * reported. Returns the new report's id.
   */
  method ReportPost(reports: ReportService.ReportService, reporterId: int, postId: int,
                    bodyType: string, bodyId: int, reason: string, details: Option<string>, now: int)
    returns (r: Result<int>)
    requires reports.repo.Valid()
    modifies reports.repo, reports.cache`expiries
    ensures reports.repo.Valid()
    ensures ReportSchemas.MakeReportCreate(bodyType, bodyId, reason, details).Err? ==>
      && r.Err? && r.error.ValidationError?
      && reports.repo.reports == old(reports.repo.reports)
      && reports.cache.expiries == old(reports.cache.expiries)
    ensures ReportSchemas.MakeReportCreate(bodyType, bodyId, reason, details).Ok? ==>
      var decision := ReportService.Admit(old(reports.repo.reports), reporterId, "post", postId, reason, details, now);
      && !(r.Err? && r.error.ValidationError?)
      && (decision.Err? ==>
            && r == Err(decision.error)
            && reports.repo.reports == old(reports.repo.reports)
            && reports.cache.expiries == old(reports.cache.expiries))
      && (decision.Ok? ==>
            && r == Ok(old(reports.repo.nextId))
            && |reports.repo.reports| == |old(reports.repo.reports)| + 1
            && reports.repo.reports[..|old(reports.repo.reports)|] == old(reports.repo.reports)
            && reports.cache.expiries ==
                 (if reports.cache.connected && !reports.cache.failing
                  then old(reports.cache.expiries)[ReportService.DuplicateKey(reporterId, "post", postId) := now + ReportService.DuplicateWindow]
                  else old(reports.cache.expiries))
            && var x := reports.repo.reports[|old(reports.repo.reports)|];
               && x.id == r.value
               && x.reporterId == Some(reporterId)
               && x.reportableType == ReportSchemas.PostTarget
               && x.reportableId == postId
               && ReportSchemas.ReasonName(x.reason) == reason
               && x.details == details
               && x.status == ReportSchemas.Pending
               && x.createdAt == now)
  {
    var body := ReportSchemas.MakeReportCreate(bodyType, bodyId, reason, details);
    if body.Err? {
      return Err(body.error);
    }
    var created := reports.CreateReport(reporterId, "post", postId, reason, details, now);
    if created.Err? {
      return Err(created.error);
    }
    r := Ok(created.value.id);
  }
}
