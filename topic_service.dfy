/**
 * The topic service: every topic with the number of posts linked to it, and
 * the lookups by id and by slug. The count is taken over the link table
 * alone, so links to soft-deleted posts are counted too.
 */
module TopicService {
  import opened Wrappers
  import opened Ordering
  import opened Topics
  import Posts
  import BaseService

  /** A topic with its post count. */
  datatype TopicWithCount = TopicWithCount(topic: Topic, postCount: nat)

  /**
   * COUNT(post_topic.post_id) over the outer join of a topic with its links:
   * the number of link rows of that topic, 0 when it has none.
   */
  function PostCount(links: set<(int, int)>, topicId: int): nat {
    |set l | l in links && l.1 == topicId|
  }

  /** The posts linked to a topic. */
  function LinkedPosts(links: set<(int, int)>, topicId: int): set<int> {
    set l | l in links && l.1 == topicId :: l.0
  }

  /**
   * Linking a post to a topic adds one to that topic's count and to no other;
   * marking a post deleted leaves the link table, and so every count, as it is.
   */
  lemma LinkCounts(links: set<(int, int)>, postId: int, topicId: int, other: int)
    requires (postId, topicId) !in links
    ensures PostCount(links + {(postId, topicId)}, topicId) == PostCount(links, topicId) + 1
    ensures other != topicId ==> PostCount(links + {(postId, topicId)}, other) == PostCount(links, other)
  {
    var before := set l | l in links && l.1 == topicId;
    assert (set l | l in links + {(postId, topicId)} && l.1 == topicId) == before + {(postId, topicId)};
    if other != topicId {
      assert (set l | l in links + {(postId, topicId)} && l.1 == other) == set l | l in links && l.1 == other;
    }
  }

  /** The records of the topics listed, in the same order. */
  function WithCounts(all: seq<Topic>, links: set<(int, int)>): (r: seq<TopicWithCount>)
    ensures |r| == |all|
    ensures forall i :: 0 <= i < |all| ==> r[i].topic == all[i]
    ensures forall x :: x in r ==> x.postCount == |LinkedPosts(links, x.topic.id)|
  {
    var r := seq(|all|, i requires 0 <= i < |all| => TopicWithCount(all[i], PostCount(links, all[i].id)));
    forall x | x in r ensures x.postCount == |LinkedPosts(links, x.topic.id)| {
      CountIsPosts(links, x.topic.id);
    }
    r
  }

  class TopicService {
    const topics: TopicRepo
    const posts: Posts.PostRepo

    constructor (topics: TopicRepo, posts: Posts.PostRepo)
      ensures this.topics == topics && this.posts == posts
    {
      this.topics, this.posts := topics, posts;
    }

    /**
     * get_all_with_counts: one record per topic (active topics only when
     * asked), ordered by name, each with the number of posts linked to it.
     */
    function GetAllWithCounts(onlyActive: bool): (r: seq<TopicWithCount>)
      reads topics, posts
      requires topics.Valid()
      ensures |r| == |set t | t in topics.topics && (onlyActive ==> t.isActive) :: t.id|
      ensures forall x :: x in r ==>
        && x.topic in topics.topics && (onlyActive ==> x.topic.isActive)
        && x.postCount == |LinkedPosts(posts.links, x.topic.id)|
      ensures forall t :: t in topics.topics && (onlyActive ==> t.isActive) ==> exists x :: x in r && x.topic == t
      ensures forall i, j :: 0 <= i < j < |r| ==> StrLe(r[i].topic.name, r[j].topic.name)
    {
      var all := topics.GetAll(onlyActive);
      var r := WithCounts(all, posts.links);
      forall t | t in topics.topics && (onlyActive ==> t.isActive) ensures exists x :: x in r && x.topic == t {
        var i :| 0 <= i < |all| && all[i] == t;
        assert r[i] in r;
      }
      forall i, j | 0 <= i < j < |r| ensures StrLe(r[i].topic.name, r[j].topic.name) {
        assert ByName(all[i], all[j]);
      }
      r
    }

    /** get_by_id: the topic, or NotFound naming "Topic". */
    function GetById(topicId: int): (r: Result<Topic>)
      reads topics
      ensures r.Ok? <==> exists t :: t in topics.topics && t.id == topicId
      ensures r.Ok? ==> r.value in topics.topics && r.value.id == topicId
      ensures r.Err? ==> r.error == NotFound("Topic")
    {
      BaseService.GetOr404(topics.Get(topicId), "Topic")
    }

    /** get_by_slug: the topic with that slug, or None; a miss is not an error. */
    function GetBySlug(slug: string): (r: Option<Topic>)
      reads topics
      requires topics.Valid()
      ensures r.None? <==> forall t :: t in topics.topics ==> t.slug != slug
      ensures r.Some? ==> r.value in topics.topics && r.value.slug == slug
    {
      topics.GetBySlug(slug)
    }
  }

  /** The link rows of a topic are as many as the posts linked to it: a post is linked once. */
  lemma CountIsPosts(links: set<(int, int)>, topicId: int)
    ensures PostCount(links, topicId) == |LinkedPosts(links, topicId)|
  {
    var rows := set l | l in links && l.1 == topicId;
    assert LinkedPosts(links, topicId) == set l | l in rows :: l.0;
    PairsByFirst(rows, topicId);
  }

  /** Pairs that share their second component are as many as their first components. */
  lemma {:induction false} PairsByFirst(rows: set<(int, int)>, topicId: int)
    requires forall l :: l in rows ==> l.1 == topicId
    ensures |rows| == |set l | l in rows :: l.0|
    decreases |rows|
  {
    if rows != {} {
      var l :| l in rows;
      var rest := rows - {l};
      PairsByFirst(rest, topicId);
      assert (set m | m in rows :: m.0) == (set m | m in rest :: m.0) + {l.0};
      assert l.0 !in (set m | m in rest :: m.0);
    }
  }
}
