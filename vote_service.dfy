/**
 * The vote service: the toggle on a post or a comment, followed by a full
 * recount that is written back to the target's vote_count. The recount
 * keeps every target's stored count equal to the sum of its votes.
 */
module VoteService {
  import opened Wrappers
  import opened VoteRows
  import Posts
  import Comments
  import PostVotes
  import CommentVotes
  import BaseService

  /** The service's answer: the recounted total and the caller's resulting vote (None when removed). */
  datatype VoteResult = VoteResult(voteCount: int, userVote: Option<int>)

  /** Every post carries the sum of its votes. */
  ghost predicate PostsInSync(posts: seq<Posts.Post>, rows: seq<Vote>) {
    forall p :: p in posts ==> p.voteCount == Tally(rows, p.id)
  }

  /** Every comment carries the sum of its votes. */
  ghost predicate CommentsInSync(comments: seq<Comments.Comment>, rows: seq<Vote>) {
    forall c :: c in comments ==> c.voteCount == Tally(rows, c.id)
  }

  /**
   * A toggle on one post followed by writing that post's recount keeps every
   * post in sync: the toggle moves no other post's tally.
   */
  lemma PostVoteKeepsSync(posts: seq<Posts.Post>, rows: seq<Vote>, userId: int, postId: int, requested: int)
    requires WellFormed(rows)
    requires PostsInSync(posts, rows)
    ensures var d := Toggle(rows, userId, postId, requested);
      PostsInSync(Posts.Updated(posts, postId, Posts.SetVoteCount(Tally(d.rows, postId))), d.rows)
  {
    var d := Toggle(rows, userId, postId, requested);
    var after := Posts.Updated(posts, postId, Posts.SetVoteCount(Tally(d.rows, postId)));
    forall p | p in after ensures p.voteCount == Tally(d.rows, p.id) {
      var i :| 0 <= i < |after| && after[i] == p;
      assert posts[i] in posts;
      if posts[i].id != postId {
        ToggleTally(rows, userId, postId, requested, p.id);
      }
    }
  }

  /** The same for a vote on a comment. */
  lemma CommentVoteKeepsSync(comments: seq<Comments.Comment>, rows: seq<Vote>, userId: int, commentId: int, requested: int)
    requires WellFormed(rows)
    requires CommentsInSync(comments, rows)
    ensures var d := Toggle(rows, userId, commentId, requested);
      CommentsInSync(Comments.Updated(comments, commentId, Comments.SetVoteCount(Tally(d.rows, commentId))), d.rows)
  {
    var d := Toggle(rows, userId, commentId, requested);
    var after := Comments.Updated(comments, commentId, Comments.SetVoteCount(Tally(d.rows, commentId)));
    forall c | c in after ensures c.voteCount == Tally(d.rows, c.id) {
      var i :| 0 <= i < |after| && after[i] == c;
      assert comments[i] in comments;
      if comments[i].id != commentId {
        ToggleTally(rows, userId, commentId, requested, c.id);
      }
    }
  }

  /** The recount returned is the old count moved by the caller's new vote minus their old one. */
  lemma RecountIsDelta(rows: seq<Vote>, userId: int, targetId: int, requested: int)
    requires WellFormed(rows)
    ensures var d := Toggle(rows, userId, targetId, requested);
      Tally(d.rows, targetId) == Tally(rows, targetId) + VoteValue(d.userVote) - VoteValue(Find(rows, userId, targetId))
  {
    ToggleTally(rows, userId, targetId, requested, targetId);
  }

  class VoteService {
    const postVotes: PostVotes.PostVoteRepo
    const posts: Posts.PostRepo
    const commentVotes: CommentVotes.CommentVoteRepo
    const comments: Comments.CommentRepo

    constructor (postVotes: PostVotes.PostVoteRepo, posts: Posts.PostRepo,
                 commentVotes: CommentVotes.CommentVoteRepo, comments: Comments.CommentRepo)
      ensures this.postVotes == postVotes && this.posts == posts
      ensures this.commentVotes == commentVotes && this.comments == comments
    {
      this.postVotes, this.posts, this.commentVotes, this.comments := postVotes, posts, commentVotes, comments;
    }

    /**
     * The toggle of vote_on_post: remove on 0 or on the stored
     * polarity, upsert otherwise. A value outside {-1, 0, 1} reaches the
     * upsert, which the check constraint refuses.
     */
    method TogglePost(userId: int, postId: int, voteType: int) returns (r: Result<Option<int>>)
      requires postVotes.Valid()
      modifies postVotes
      ensures postVotes.Valid()
      ensures voteType !in {-1, 0, 1} ==> r == Err(IntegrityError) && postVotes.rows == old(postVotes.rows)
      ensures voteType in {-1, 0, 1} ==>
        && postVotes.rows == Toggle(old(postVotes.rows), userId, postId, voteType).rows
        && r == Ok(Toggle(old(postVotes.rows), userId, postId, voteType).userVote)
    {
      ghost var rows0 := postVotes.rows;
      var existing := postVotes.GetUserVote(userId, postId);
      if existing.Some? {
        FindUnique(rows0, userId, postId, existing.value.voteType);
      }
      if voteType == 0 {
        if existing.Some? {
          var _ := postVotes.RemoveVote(userId, postId);
        }
        r := Ok(None);
      } else if existing.Some? && existing.value.voteType == voteType {
        var _ := postVotes.RemoveVote(userId, postId);
        r := Ok(None);
      } else {
        var up := postVotes.UpsertVote(userId, postId, voteType);
        if up.Err? {
          return Err(up.error);
        }
        r := Ok(Some(voteType));
      }
    }

    /**
     * vote_on_post: NotFound for a missing post; otherwise the toggle,
     * the recount of the post's votes and the write-back of that count.
     */
    method VoteOnPost(userId: int, postId: int, voteType: int) returns (r: Result<VoteResult>)
      requires postVotes.Valid() && posts.Valid()
      modifies postVotes, posts
      ensures postVotes.Valid() && posts.Valid()
      ensures old(posts.Get(postId)).None? ==>
        r == Err(NotFound("Post")) && postVotes.rows == old(postVotes.rows) && posts.posts == old(posts.posts)
      ensures old(posts.Get(postId)).Some? && voteType !in {-1, 0, 1} ==>
        r == Err(IntegrityError) && postVotes.rows == old(postVotes.rows) && posts.posts == old(posts.posts)
      ensures old(posts.Get(postId)).Some? && voteType in {-1, 0, 1} ==>
        var d := Toggle(old(postVotes.rows), userId, postId, voteType);
        && postVotes.rows == d.rows
        && r == Ok(VoteResult(Tally(d.rows, postId), d.userVote))
        && posts.posts == Posts.Updated(old(posts.posts), postId, Posts.SetVoteCount(Tally(d.rows, postId)))
        && Find(postVotes.rows, userId, postId) == d.userVote
      ensures PostsInSync(old(posts.posts), old(postVotes.rows)) ==> PostsInSync(posts.posts, postVotes.rows)
    {
      var found := BaseService.GetOr404(posts.Get(postId), "Post");
      if found.Err? {
        return Err(found.error);
      }
      ghost var rows0 := postVotes.rows;
      var toggled := TogglePost(userId, postId, voteType);
      if toggled.Err? {
        return Err(toggled.error);
      }
      ToggleFind(rows0, userId, postId, voteType);
      var allVotes := postVotes.GetPostVotes(postId);
      var count := SumTypes(allVotes);
      var _ := posts.UpdateVoteCount(postId, count);
      r := Ok(VoteResult(count, toggled.value));
      if PostsInSync(old(posts.posts), rows0) {
        PostVoteKeepsSync(old(posts.posts), rows0, userId, postId, voteType);
      }
    }

    /**
     * The toggle of vote_on_comment: remove on 0 or on the stored
     * polarity, upsert otherwise. A value outside {-1, 0, 1} reaches the
     * upsert, which the check constraint refuses.
     */
    method ToggleComment(userId: int, commentId: int, voteType: int) returns (r: Result<Option<int>>)
      requires commentVotes.Valid()
      modifies commentVotes
      ensures commentVotes.Valid()
      ensures voteType !in {-1, 0, 1} ==> r == Err(IntegrityError) && commentVotes.rows == old(commentVotes.rows)
      ensures voteType in {-1, 0, 1} ==>
        && commentVotes.rows == Toggle(old(commentVotes.rows), userId, commentId, voteType).rows
        && r == Ok(Toggle(old(commentVotes.rows), userId, commentId, voteType).userVote)
    {
      ghost var rows0 := commentVotes.rows;
      var existing := commentVotes.GetUserVote(userId, commentId);
      if existing.Some? {
        FindUnique(rows0, userId, commentId, existing.value.voteType);
      }
      if voteType == 0 {
        if existing.Some? {
          var _ := commentVotes.RemoveVote(userId, commentId);
        }
        r := Ok(None);
      } else if existing.Some? && existing.value.voteType == voteType {
        var _ := commentVotes.RemoveVote(userId, commentId);
        r := Ok(None);
      } else {
        var up := commentVotes.UpsertVote(userId, commentId, voteType);
        if up.Err? {
          return Err(up.error);
        }
        r := Ok(Some(voteType));
      }
    }

    /**
     * vote_on_comment: NotFound for a missing comment; otherwise the toggle,
     * the recount of the comment's votes and the write-back of that count.
     */
    method VoteOnComment(userId: int, commentId: int, voteType: int) returns (r: Result<VoteResult>)
      requires commentVotes.Valid() && comments.Valid()
      modifies commentVotes, comments
      ensures commentVotes.Valid() && comments.Valid()
      ensures old(comments.Get(commentId)).None? ==>
        r == Err(NotFound("Comment")) && commentVotes.rows == old(commentVotes.rows) && comments.comments == old(comments.comments)
      ensures old(comments.Get(commentId)).Some? && voteType !in {-1, 0, 1} ==>
        r == Err(IntegrityError) && commentVotes.rows == old(commentVotes.rows) && comments.comments == old(comments.comments)
      ensures old(comments.Get(commentId)).Some? && voteType in {-1, 0, 1} ==>
        var d := Toggle(old(commentVotes.rows), userId, commentId, voteType);
        && commentVotes.rows == d.rows
        && r == Ok(VoteResult(Tally(d.rows, commentId), d.userVote))
        && comments.comments == Comments.Updated(old(comments.comments), commentId, Comments.SetVoteCount(Tally(d.rows, commentId)))
        && Find(commentVotes.rows, userId, commentId) == d.userVote
      ensures CommentsInSync(old(comments.comments), old(commentVotes.rows)) ==> CommentsInSync(comments.comments, commentVotes.rows)
    {
      var found := BaseService.GetOr404(comments.Get(commentId), "Comment");
      if found.Err? {
        return Err(found.error);
      }
      ghost var rows0 := commentVotes.rows;
      var toggled := ToggleComment(userId, commentId, voteType);
      if toggled.Err? {
        return Err(toggled.error);
      }
      ToggleFind(rows0, userId, commentId, voteType);
      var allVotes := commentVotes.GetCommentVotes(commentId);
      var count := SumTypes(allVotes);
      var _ := comments.UpdateVoteCount(commentId, count);
      r := Ok(VoteResult(count, toggled.value));
      if CommentsInSync(old(comments.comments), rows0) {
        CommentVoteKeepsSync(old(comments.comments), rows0, userId, commentId, voteType);
      }
    }
  }
}
