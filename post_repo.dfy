/**
 * The post table and the post_topic link table, with the queries and updates
 * of the post repository.
 *
 * A post's id never changes and ids are unique. Links are (post_id, topic_id)
 * pairs with a composite primary key, so the link table is a set.
 */
module Posts {
  import opened Wrappers
  import opened Ordering

  datatype Post = Post(
    id: int,
    userId: Option<int>,        // NULL once the author's account is gone
    title: string,
    content: string,
    voteCount: int,
    viewCount: int,
    commentCount: int,
    isDeleted: bool,
    createdAt: int)             // seconds

  /** A new post: every counter starts at 0 and it is not deleted. */
  function NewPost(id: int, userId: int, title: string, content: string, now: int): Post {
    Post(id, Some(userId), title, content, 0, 0, 0, false, now)
  }

  /** The feed orders of get_feed. */
  datatype FeedSort = Hot | New | Top

  /** The single-row UPDATE statements of the repository. */
  datatype Change =
    | BumpViews                         // view_count = view_count + 1
    | AddComments(increment: int)       // comment_count = comment_count + increment
    | SetVoteCount(voteCount: int)      // vote_count = new_vote_count
    | MarkDeleted                       // is_deleted = true
    | Edit(title: Option<string>, content: Option<string>)  // the fields supplied to update_by_id

  function Apply(p: Post, c: Change): Post {
    match c
    case BumpViews => p.(viewCount := p.viewCount + 1)
    case AddComments(k) => p.(commentCount := p.commentCount + k)
    case SetVoteCount(v) => p.(voteCount := v)
    case MarkDeleted => p.(isDeleted := true)
    case Edit(t, b) =>
      p.(title := if t.Some? then t.value else p.title,
         content := if b.Some? then b.value else p.content)
  }

  /** UPDATE post SET ... WHERE id = `id`: the change applied to the row with that id, if any. */
  function Updated(ps: seq<Post>, id: int, c: Change): (r: seq<Post>)
    ensures |r| == |ps|
    ensures forall i :: 0 <= i < |ps| ==> r[i] == (if ps[i].id == id then Apply(ps[i], c) else ps[i])
  {
    seq(|ps|, i requires 0 <= i < |ps| => if ps[i].id == id then Apply(ps[i], c) else ps[i])
  }

  ghost predicate UniqueIds(ps: seq<Post>) {
    forall i, j :: 0 <= i < j < |ps| ==> ps[i].id != ps[j].id
  }

  /** SELECT ... WHERE id = `id`. */
  function FindPost(ps: seq<Post>, id: int): (r: Option<Post>)
    ensures r.Some? ==> r.value in ps && r.value.id == id
    ensures r.None? <==> forall p :: p in ps ==> p.id != id
  {
    if ps == [] then None
    else if ps[0].id == id then Some(ps[0])
    else
      assert forall p :: p in ps && p != ps[0] ==> p in ps[1..];
      FindPost(ps[1..], id)
  }

  /** Under unique ids, the row found is the one row with that id. */
  lemma {:induction false} FindPostUnique(ps: seq<Post>, p: Post)
    requires UniqueIds(ps)
    requires p in ps
    ensures FindPost(ps, p.id) == Some(p)
  {
    if ps[0] != p {
      assert ps[0].id != p.id by {
        var k :| 0 <= k < |ps| && ps[k] == p;
        assert k != 0;
      }
      assert p in ps[1..];
      FindPostUnique(ps[1..], p);
    }
  }

  /**
   * A single-row update keeps the ids, changes the row with that id as the
   * statement says and leaves every other row as it was; it reports a row
   * exactly when one had that id.
   */
  lemma {:induction false} UpdatedFind(ps: seq<Post>, id: int, c: Change, q: int)
    requires UniqueIds(ps)
    ensures UniqueIds(Updated(ps, id, c))
    ensures FindPost(Updated(ps, id, c), q) ==
      (if q == id && FindPost(ps, q).Some? then Some(Apply(FindPost(ps, q).value, c)) else FindPost(ps, q))
  {
    var r := Updated(ps, id, c);
    if ps != [] {
      assert r[1..] == Updated(ps[1..], id, c);
      UpdatedFind(ps[1..], id, c, q);
    }
  }

  /** Soft delete is idempotent: repeating it changes nothing further. */
  lemma SoftDeleteIdempotent(ps: seq<Post>, id: int)
    ensures Updated(Updated(ps, id, MarkDeleted), id, MarkDeleted) == Updated(ps, id, MarkDeleted)
  {
  }

  // ----- feed and search -----

  /** The WHERE clauses of get_feed. An empty topic list means no topic filter. */
  predicate FeedKeeps(p: Post, topicIds: seq<int>, includeDeleted: bool, links: set<(int, int)>) {
    && (topicIds == [] || exists t :: t in topicIds && (p.id, t) in links)
    && (includeDeleted || !p.isDeleted)
  }

  /** "new": created_at descending. */
  predicate NewerFirst(a: Post, b: Post) { a.createdAt >= b.createdAt }

  /** "top": vote_count descending, then created_at descending. */
  predicate TopFirst(a: Post, b: Post) {
    a.voteCount > b.voteCount || (a.voteCount == b.voteCount && a.createdAt >= b.createdAt)
  }

  /** "hot": the hot score descending, then created_at descending. */
  predicate HotFirst(score: Post -> real, a: Post, b: Post) {
    score(a) > score(b) || (score(a) == score(b) && a.createdAt >= b.createdAt)
  }

  function FeedOrder(sort: FeedSort, score: Post -> real): (Post, Post) -> bool {
    match sort
    case Hot => (a, b) => HotFirst(score, a, b)
    case New => NewerFirst
    case Top => TopFirst
  }

  lemma FeedOrderTotal(sort: FeedSort, score: Post -> real)
    ensures TotalPreorder(FeedOrder(sort, score))
  {
  }

  /** SQL's `ilike` case folding, on ASCII letters. */
  function LowerChar(c: char): char {
    if 'A' <= c <= 'Z' then (c as int - 'A' as int + 'a' as int) as char else c
  }

  function Lower(s: string): (r: string)
    ensures |r| == |s|
    ensures forall i :: 0 <= i < |s| ==> r[i] == LowerChar(s[i])
  {
    seq(|s|, i requires 0 <= i < |s| => LowerChar(s[i]))
  }

  /** `needle` occurs in `hay` starting at position `i`. */
  predicate OccursAt(hay: string, needle: string, i: int) {
    0 <= i <= |hay| - |needle| && hay[i..i + |needle|] == needle
  }

  /** With no occurrence at the front, the occurrences are those of the tail, one position on. */
  lemma OccursShift(hay: string, needle: string)
    requires |needle| <= |hay|
    requires hay[..|needle|] != needle
    ensures hay != []
    ensures (exists i :: OccursAt(hay, needle, i)) <==> exists j :: OccursAt(hay[1..], needle, j)
  {
    assert hay[0..|needle|] == hay[..|needle|];
    if j :| OccursAt(hay[1..], needle, j) {
      assert hay[1..][j..j + |needle|] == hay[j + 1..j + 1 + |needle|];
      assert OccursAt(hay, needle, j + 1);
    }
    if i :| OccursAt(hay, needle, i) {
      assert i != 0;
      assert hay[1..][i - 1..i - 1 + |needle|] == hay[i..i + |needle|];
      assert OccursAt(hay[1..], needle, i - 1);
    }
  }

  /** `needle` occurs in `hay` as a contiguous substring, found by trying each start in turn. */
  function Contains(hay: string, needle: string): (r: bool)
    ensures r <==> exists i :: OccursAt(hay, needle, i)
    decreases |hay|
  {
    if |needle| > |hay| then false
    else if hay[..|needle|] == needle then
      assert hay[0..|needle|] == hay[..|needle|];
      assert OccursAt(hay, needle, 0);
      true
    else
      OccursShift(hay, needle);
      Contains(hay[1..], needle)
  }

  /** `column ILIKE '%q%'`, wildcards in `q` taken literally. */
  predicate Matches(column: string, q: string) { Contains(Lower(column), Lower(q)) }

  predicate SearchKeeps(p: Post, q: string, includeDeleted: bool) {
    (Matches(p.title, q) || Matches(p.content, q)) && (includeDeleted || !p.isDeleted)
  }

  /** Title matches first, then vote_count descending, then created_at descending. */
  predicate SearchFirst(q: string, a: Post, b: Post) {
    var ta, tb := Matches(a.title, q), Matches(b.title, q);
    (ta && !tb) || (ta == tb && TopFirst(a, b))
  }

  lemma SearchOrderTotal(q: string)
    ensures TotalPreorder((a, b) => SearchFirst(q, a, b))
  {
  }

  /** The length of OFFSET `skip` LIMIT `limit` over `n` rows. */
  function PageLength(n: nat, skip: nat, limit: nat): nat {
    if skip >= n then 0 else Min(limit, n - skip)
  }

  /** Python's truthiness of a list: None and [] both mean "no topic filter". */
  function TopicFilter(topicIds: Option<seq<int>>): seq<int> {
    if topicIds.Some? then topicIds.value else []
  }

  /**
   * How many rows the join with post_topic yields for a post: one per listed
   * topic it is linked to. Without a topic filter there is no join and every
   * post is one row.
   */
  function JoinCount(topicIds: seq<int>, links: set<(int, int)>): Post -> nat {
    (p: Post) => if topicIds == [] then 1 else |set l | l in links && l.0 == p.id && l.1 in topicIds|
  }

  class PostRepo {
    var posts: seq<Post>
    var links: set<(int, int)>
    var nextId: int

    ghost predicate Valid()
      reads this
    {
      UniqueIds(posts) && forall p :: p in posts ==> p.id < nextId
    }

    constructor ()
      ensures Valid() && posts == [] && links == {}
    {
      posts, links, nextId := [], {}, 1;
    }

    /** get_by_id. */
    function Get(id: int): (r: Option<Post>)
      reads this
      requires Valid()
      ensures r.Some? <==> exists p :: p in posts && p.id == id
      ensures r.Some? ==> r.value in posts && r.value.id == id
    {
      FindPost(posts, id)
    }

    /** The topic ids linked to a post. */
    function TopicsOf(postId: int): (r: set<int>)
      reads this
      ensures forall t :: t in r <==> (postId, t) in links
    {
      set l | l in links && l.0 == postId :: l.1
    }

    /** The feed before OFFSET and LIMIT: every post that passes the filters, in feed order. */
    function Feed(sort: FeedSort, topicIds: Option<seq<int>>, includeDeleted: bool, score: Post -> real): (r: seq<Post>)
      reads this
      ensures forall p :: p in r <==> p in posts && FeedKeeps(p, TopicFilter(topicIds), includeDeleted, links)
      ensures SortedBy(r, FeedOrder(sort, score))
      ensures |r| <= |posts|
      ensures UniqueIds(posts) ==> Distinct(r)
    {
      var l, ids := links, TopicFilter(topicIds);
      var keep := p => FeedKeeps(p, ids, includeDeleted, l);
      var kept := Filter(posts, keep);
      var le := FeedOrder(sort, score);
      FeedOrderTotal(sort, score);
      SortBySorted(kept, le);
      SortByMembers(kept, le);
      assert UniqueIds(posts) ==> Distinct(SortBy(kept, le)) by {
        if UniqueIds(posts) {
          assert Distinct(posts);
          FilterDistinct(posts, keep);
          SortByDistinct(kept, le);
        }
      }
      SortBy(kept, le)
    }

    /**
     * The rows OFFSET and LIMIT see: the feed with each post repeated once per
     * listed topic it is linked to. With at most one topic id every post is a
     * single row.
     */
    function FeedRows(sort: FeedSort, topicIds: Option<seq<int>>, includeDeleted: bool, score: Post -> real): (r: seq<Post>)
      reads this
      ensures forall p :: p in r <==> p in Feed(sort, topicIds, includeDeleted, score)
      ensures SortedBy(r, FeedOrder(sort, score))
      ensures |TopicFilter(topicIds)| <= 1 ==> r == Feed(sort, topicIds, includeDeleted, score)
    {
      var rows := Feed(sort, topicIds, includeDeleted, score);
      var ids := TopicFilter(topicIds);
      var times := JoinCount(ids, links);
      forall p | p in rows ensures times(p) > 0 && (|ids| <= 1 ==> times(p) == 1) {
        if ids != [] {
          var t :| t in ids && (p.id, t) in links;
          var matching := set l | l in links && l.0 == p.id && l.1 in ids;
          assert (p.id, t) in matching;
          if |ids| == 1 {
            assert ids == [t];
            assert matching == {(p.id, t)};
          }
        }
      }
      FeedOrderTotal(sort, score);
      JoinedSorted(rows, times, FeedOrder(sort, score));
      assert |ids| <= 1 ==> Joined(rows, times) == rows by {
        if |ids| <= 1 {
          JoinedOnce(rows, times);
        }
      }
      Joined(rows, times)
    }

    /**
     * get_feed: OFFSET and LIMIT apply to the joined rows and `.unique()`
     * then drops repeats, so the result holds the posts on that page of rows,
     * each once, in feed order. With at most one topic id this is exactly
     * page (skip, limit) of the feed.
     */
    function GetFeed(sort: FeedSort, topicIds: Option<seq<int>>, skip: nat, limit: nat,
                     includeDeleted: bool, score: Post -> real): (r: seq<Post>)
      reads this
      ensures forall p :: p in r ==> p in posts && FeedKeeps(p, TopicFilter(topicIds), includeDeleted, links)
      ensures forall p :: p in r <==> p in Page(FeedRows(sort, topicIds, includeDeleted, score), skip, limit)
      ensures Distinct(r)
      ensures SortedBy(r, FeedOrder(sort, score))
      ensures |r| <= limit
      ensures skip == 0 && |FeedRows(sort, topicIds, includeDeleted, score)| <= limit ==>
        forall p :: p in posts && FeedKeeps(p, TopicFilter(topicIds), includeDeleted, links) ==> p in r
      ensures UniqueIds(posts) && |TopicFilter(topicIds)| <= 1 ==>
        r == Page(Feed(sort, topicIds, includeDeleted, score), skip, limit)
    {
      var rows := FeedRows(sort, topicIds, includeDeleted, score);
      var page := Page(rows, skip, limit);
      PageSorted(rows, skip, limit, FeedOrder(sort, score));
      PageMembers(rows, skip, limit);
      DeduplicatedSorted(page, FeedOrder(sort, score));
      assert skip == 0 && |rows| <= limit ==> page == rows;
      assert UniqueIds(posts) && |TopicFilter(topicIds)| <= 1 ==> Deduplicated(page) == page by {
        if UniqueIds(posts) && |TopicFilter(topicIds)| <= 1 {
          PageDistinct(rows, skip, limit);
          DeduplicatedDistinct(page);
        }
      }
      Deduplicated(page)
    }

    /** The rows of get_by_user before OFFSET and LIMIT: that author's posts, newest first. */
    function UserPosts(userId: int, includeDeleted: bool): (r: seq<Post>)
      reads this
      ensures forall p :: p in r <==> p in posts && p.userId == Some(userId) && (includeDeleted || !p.isDeleted)
      ensures SortedBy(r, NewerFirst)
    {
      var kept := Filter(posts, (p: Post) => p.userId == Some(userId) && (includeDeleted || !p.isDeleted));
      SortBySorted(kept, NewerFirst);
      SortByMembers(kept, NewerFirst);
      SortBy(kept, NewerFirst)
    }

    /** get_by_user: page (skip, limit) of that author's posts, newest first. */
    function GetByUser(userId: int, skip: nat, limit: nat, includeDeleted: bool): (r: seq<Post>)
      reads this
      ensures r == Page(UserPosts(userId, includeDeleted), skip, limit)
      ensures forall p :: p in r ==> p in posts && p.userId == Some(userId) && (includeDeleted || !p.isDeleted)
      ensures SortedBy(r, NewerFirst)
      ensures |r| <= limit
    {
      var ordered := UserPosts(userId, includeDeleted);
      PageSorted(ordered, skip, limit, NewerFirst);
      PageMembers(ordered, skip, limit);
      Page(ordered, skip, limit)
    }

    /** The search result before OFFSET and LIMIT: every matching post, title matches first. */
    function SearchRows(q: string, includeDeleted: bool): (r: seq<Post>)
      reads this
      ensures forall p :: p in r <==> p in posts && SearchKeeps(p, q, includeDeleted)
      ensures SortedBy(r, (a, b) => SearchFirst(q, a, b))
      ensures |r| <= |posts|
    {
      var kept := Filter(posts, p => SearchKeeps(p, q, includeDeleted));
      var le := (a, b) => SearchFirst(q, a, b);
      SearchOrderTotal(q);
      SortBySorted(kept, le);
      SortByMembers(kept, le);
      SortBy(kept, le)
    }

    /** search: page (skip, limit) of the posts whose title or content contains `q`, title matches first. */
    function Search(q: string, skip: nat, limit: nat, includeDeleted: bool): (r: seq<Post>)
      reads this
      ensures r == Page(SearchRows(q, includeDeleted), skip, limit)
      ensures forall p :: p in r ==> p in posts && SearchKeeps(p, q, includeDeleted)
      ensures SortedBy(r, (a, b) => SearchFirst(q, a, b))
      ensures |r| <= limit
      ensures skip == 0 && |posts| <= limit ==>
        forall p :: p in posts && SearchKeeps(p, q, includeDeleted) ==> p in r
    {
      var ordered := SearchRows(q, includeDeleted);
      PageSorted(ordered, skip, limit, (a, b) => SearchFirst(q, a, b));
      PageMembers(ordered, skip, limit);
      assert skip == 0 && |ordered| <= limit ==> Page(ordered, skip, limit) == ordered;
      Page(ordered, skip, limit)
    }

    /** create_one: a fresh row with the next id. */
    method CreateOne(userId: int, title: string, content: string, now: int) returns (p: Post)
      requires Valid()
      modifies this`posts, this`nextId
      ensures Valid()
      ensures p == NewPost(old(nextId), userId, title, content, now)
      ensures posts == old(posts) + [p]
      ensures Get(p.id) == Some(p)
    {
      p := NewPost(nextId, userId, title, content, now);
      posts := posts + [p];
      nextId := nextId + 1;
      FindPostUnique(posts, p);
    }

    /** The shared shape of the single-row UPDATE statements. */
    method UpdateRow(postId: int, c: Change) returns (found: bool)
      requires Valid()
      modifies this`posts
      ensures Valid()
      ensures found <==> old(Get(postId)).Some?
      ensures posts == Updated(old(posts), postId, c)
      ensures Get(postId) == if found then Some(Apply(old(Get(postId)).value, c)) else None
      ensures forall q :: q != postId ==> Get(q) == old(Get(q))
    {
      found := FindPost(posts, postId).Some?;
      var before := posts;
      posts := Updated(posts, postId, c);
      UpdatedFind(before, postId, c, postId);
      forall q | q != postId ensures FindPost(posts, q) == FindPost(before, q) {
        UpdatedFind(before, postId, c, q);
      }
      forall p | p in posts ensures p.id < nextId {
        var i :| 0 <= i < |posts| && posts[i] == p;
        assert p.id == before[i].id;
      }
    }

    /** increment_view_count: view_count + 1 on that post only; true iff it exists. */
    method IncrementViewCount(postId: int) returns (found: bool)
      requires Valid()
      modifies this`posts
      ensures Valid()
      ensures found <==> old(Get(postId)).Some?
      ensures found ==> Get(postId) == Some(old(Get(postId)).value.(viewCount := old(Get(postId)).value.viewCount + 1))
      ensures posts == Updated(old(posts), postId, BumpViews)
    {
      found := UpdateRow(postId, BumpViews);
    }

    /** increment_comment_count: comment_count + increment on that post only; true iff it exists. */
    method IncrementCommentCount(postId: int, increment: int) returns (found: bool)
      requires Valid()
      modifies this`posts
      ensures Valid()
      ensures found <==> old(Get(postId)).Some?
      ensures found ==> Get(postId) == Some(old(Get(postId)).value.(commentCount := old(Get(postId)).value.commentCount + increment))
      ensures posts == Updated(old(posts), postId, AddComments(increment))
    {
      found := UpdateRow(postId, AddComments(increment));
    }

    /** update_vote_count: vote_count := value on that post only; true iff it exists. */
    method UpdateVoteCount(postId: int, newVoteCount: int) returns (found: bool)
      requires Valid()
      modifies this`posts
      ensures Valid()
      ensures found <==> old(Get(postId)).Some?
      ensures found ==> Get(postId) == Some(old(Get(postId)).value.(voteCount := newVoteCount))
      ensures forall q :: q != postId ==> Get(q) == old(Get(q))
      ensures posts == Updated(old(posts), postId, SetVoteCount(newVoteCount))
    {
      found := UpdateRow(postId, SetVoteCount(newVoteCount));
    }

    /** soft_delete: is_deleted := true on that post only; true iff it exists. */
    method SoftDelete(postId: int) returns (found: bool)
      requires Valid()
      modifies this`posts
      ensures Valid()
      ensures found <==> old(Get(postId)).Some?
      ensures found ==> Get(postId) == Some(old(Get(postId)).value.(isDeleted := true))
      ensures forall q :: q != postId ==> Get(q) == old(Get(q))
      ensures posts == Updated(old(posts), postId, MarkDeleted)
    {
      found := UpdateRow(postId, MarkDeleted);
    }

    /**
     * associate_topics: ValueError unless 1..5 ids are given; otherwise one
     * INSERT ... ON CONFLICT DO NOTHING per id, so the links grow by exactly
     * the listed pairs.
     */
    method AssociateTopics(postId: int, topicIds: seq<int>) returns (r: Outcome)
      modifies this`links
      ensures !(1 <= |topicIds| <= 5) ==> r == Fail(ValueError("Must provide between 1 and 5 topic IDs")) && links == old(links)
      ensures 1 <= |topicIds| <= 5 ==> r == Pass
      ensures 1 <= |topicIds| <= 5 ==>
        forall l :: l in links <==> l in old(links) || (l.0 == postId && l.1 in topicIds)
    {
      if |topicIds| < 1 || |topicIds| > 5 {
        return Fail(ValueError("Must provide between 1 and 5 topic IDs"));
      }
      var i := 0;
      while i < |topicIds|
        invariant 0 <= i <= |topicIds|
        invariant forall l :: l in links <==> l in old(links) || (l.0 == postId && l.1 in topicIds[..i])
      {
        assert topicIds[..i + 1] == topicIds[..i] + [topicIds[i]];
        links := links + {(postId, topicIds[i])};
        i := i + 1;
      }
      assert topicIds[..i] == topicIds;
      r := Pass;
    }

    /** remove_associations: every link of that post is gone, every other link stays. */
    method RemoveAssociations(postId: int)
      modifies this`links
      ensures links == (set l | l in old(links) && l.0 != postId)
      ensures TopicsOf(postId) == {}
    {
      links := set l | l in links && l.0 != postId;
    }
  }

  /** The first page of two rows when the first of two posts is joined twice: that post alone. */
  lemma CrowdedPage(p: Post, q: Post, times: Post -> nat)
    requires times(p) == 2 && times(q) == 1
    ensures Deduplicated(Page(Joined([p, q], times), 0, 2)) == [p]
  {
    assert Joined([q], times) == [q] by {
      assert [q][1..] == [];
      assert seq(times(q), _ => q) == [q];
    }
    assert [p, q][1..] == [q];
    assert seq(times(p), _ => p) == [p, p];
    assert Joined([p, q], times) == [p, p, q];
    assert Page([p, p, q], 0, 2) == [p, p];
    assert [p, p][..1] == [p];
    assert Deduplicated([p]) == [p] by {
      assert [p][..0] == [];
    }
  }

  /**
   * With two topic ids the join crowds the page: post 1 (linked to topics 1
   * and 2) is newer than post 2 (linked to topic 1). LIMIT 2 takes post 1's
   * two joined rows, so the first page of the "new" feed is post 1 alone,
   * although two posts pass the filters.
   */
  lemma TwoTopicsCrowdThePage(repo: PostRepo, score: Post -> real)
    requires repo.posts == [Post(1, None, "first", "first post", 0, 0, 0, false, 20),
                            Post(2, None, "second", "second post", 0, 0, 0, false, 10)]
    requires repo.links == {(1, 1), (1, 2), (2, 1)}
    ensures |repo.Feed(New, Some([1, 2]), false, score)| == 2
    ensures repo.GetFeed(New, Some([1, 2]), 0, 2, false, score) == [repo.posts[0]]
  {
    var p, q := repo.posts[0], repo.posts[1];
    var ids := [1, 2];
    var feed := repo.Feed(New, Some(ids), false, score);
    FeedOfTwo(repo, score);
    var times := JoinCount(ids, repo.links);
    assert (set l | l in repo.links && l.0 == p.id && l.1 in ids) == {(1, 1), (1, 2)};
    assert (set l | l in repo.links && l.0 == q.id && l.1 in ids) == {(2, 1)};
    CrowdedPage(p, q, times);
  }

  /** The two posts of TwoTopicsCrowdThePage both pass the filters, newer first. */
  lemma FeedOfTwo(repo: PostRepo, score: Post -> real)
    requires repo.posts == [Post(1, None, "first", "first post", 0, 0, 0, false, 20),
                            Post(2, None, "second", "second post", 0, 0, 0, false, 10)]
    requires repo.links == {(1, 1), (1, 2), (2, 1)}
    ensures repo.Feed(New, Some([1, 2]), false, score) == repo.posts
  {
    var p, q := repo.posts[0], repo.posts[1];
    var ids := [1, 2];
    var feed := repo.Feed(New, Some(ids), false, score);
    assert FeedKeeps(p, ids, false, repo.links) by {
      assert 1 in ids && (p.id, 1) in repo.links;
    }
    assert FeedKeeps(q, ids, false, repo.links) by {
      assert 1 in ids && (q.id, 1) in repo.links;
    }
    assert p in feed && q in feed && p != q;
    var i :| 0 <= i < |feed| && feed[i] == p;
    var j :| 0 <= j < |feed| && feed[j] == q;
    assert |feed| == 2;
    assert NewerFirst(feed[0], feed[1]);
    assert i == 0 && j == 1;
    assert feed == [p, q];
  }
}
