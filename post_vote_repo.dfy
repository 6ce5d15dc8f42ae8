/**
 * The post_vote table and its repository. Each row is keyed by
 * (user_id, post_id); the table keeps the unique and check constraints
 * that VoteRows.WellFormed states.
 */
module PostVotes {
  import opened Wrappers
  import opened VoteRows

  class PostVoteRepo {
    var rows: seq<Vote>

    ghost predicate Valid()
      reads this
    {
      WellFormed(rows)
    }

    constructor ()
      ensures Valid() && rows == []
    {
      rows := [];
    }

    /** get_user_vote: the one row for (user, post), or None. */
    function GetUserVote(userId: int, postId: int): (r: Option<Vote>)
      reads this
      requires Valid()
      ensures r.None? <==> forall x :: x in rows ==> !SameKey(x, userId, postId)
      ensures r.Some? ==> r.value in rows && SameKey(r.value, userId, postId) && IsPolarity(r.value.voteType)
      ensures r.Some? ==> forall x :: x in rows && SameKey(x, userId, postId) ==> x == r.value
    {
      match Find(rows, userId, postId)
      case None => None
      case Some(v) =>
        WellFormedPolarity(rows, Vote(userId, postId, v));
        forall x | x in rows && SameKey(x, userId, postId) ensures x == Vote(userId, postId, v) {
          FindUnique(rows, userId, postId, x.voteType);
        }
        Some(Vote(userId, postId, v))
    }

    /**
     * upsert_vote: INSERT ... ON CONFLICT (user_id, post_id) DO UPDATE.
     * A value outside {1, -1} violates the check constraint and changes nothing.
     */
    method UpsertVote(userId: int, postId: int, voteType: int) returns (r: Result<Vote>)
      requires Valid()
      modifies this
      ensures Valid()
      ensures !IsPolarity(voteType) ==> r == Err(IntegrityError) && rows == old(rows)
      ensures IsPolarity(voteType) ==>
        && r == Ok(Vote(userId, postId, voteType))
        && rows == Upserted(old(rows), userId, postId, voteType)
        && Find(rows, userId, postId) == Some(voteType)
        && forall u, t :: !(u == userId && t == postId) ==> Find(rows, u, t) == Find(old(rows), u, t)
    {
      if !IsPolarity(voteType) {
        return Err(IntegrityError);
      }
      UpsertedFind(rows, userId, postId, voteType);
      rows := Upserted(rows, userId, postId, voteType);
      r := Ok(Vote(userId, postId, voteType));
    }

    /** remove_vote: deletes the (user, post) row only; true iff there was one. */
    method RemoveVote(userId: int, postId: int) returns (removed: bool)
      requires Valid()
      modifies this
      ensures Valid()
      ensures removed <==> Find(old(rows), userId, postId).Some?
      ensures rows == Removed(old(rows), userId, postId)
      ensures Find(rows, userId, postId).None?
      ensures forall u, t :: !(u == userId && t == postId) ==> Find(rows, u, t) == Find(old(rows), u, t)
    {
      removed := Find(rows, userId, postId).Some?;
      RemovedFind(rows, userId, postId);
      rows := Removed(rows, userId, postId);
    }

    /** get_post_votes: exactly the rows on that post. */
    function GetPostVotes(postId: int): (r: seq<Vote>)
      reads this
      ensures forall x :: x in r <==> x in rows && x.targetId == postId
    {
      TargetVotes(rows, postId)
    }

    /** get_user_votes_for_posts: {post_id: vote_type} over the listed posts the user voted on. */
    function GetUserVotesForPosts(userId: int, postIds: seq<int>): (m: map<int, int>)
      reads this
      requires Valid()
      ensures postIds == [] ==> m == map[]
      ensures forall t :: t in m <==> t in postIds && exists x :: x in rows && SameKey(x, userId, t)
      ensures forall t :: t in m ==> Vote(userId, t, m[t]) in rows
    {
      UserVotesFor(rows, userId, postIds)
    }
  }
}
