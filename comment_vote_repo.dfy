/**
 * The comment_vote table and its repository. Each row is keyed by
 * (user_id, comment_id); the table keeps the unique and check constraints
 * that VoteRows.WellFormed states.
 */
module CommentVotes {
  import opened Wrappers
  import opened VoteRows

  class CommentVoteRepo {
    var rows: seq<Vote>

    ghost predicate Valid()
      reads this
    {
      WellFormed(rows)
    }

    constructor ()
      ensures Valid() && rows == []
    {
      rows := [];
    }

    /** get_user_vote: the one row for (user, comment), or None. */
    function GetUserVote(userId: int, commentId: int): (r: Option<Vote>)
      reads this
      requires Valid()
      ensures r.None? <==> forall x :: x in rows ==> !SameKey(x, userId, commentId)
      ensures r.Some? ==> r.value in rows && SameKey(r.value, userId, commentId) && IsPolarity(r.value.voteType)
      ensures r.Some? ==> forall x :: x in rows && SameKey(x, userId, commentId) ==> x == r.value
    {
      match Find(rows, userId, commentId)
      case None => None
      case Some(v) =>
        WellFormedPolarity(rows, Vote(userId, commentId, v));
        forall x | x in rows && SameKey(x, userId, commentId) ensures x == Vote(userId, commentId, v) {
          FindUnique(rows, userId, commentId, x.voteType);
        }
        Some(Vote(userId, commentId, v))
    }

    /**
     * upsert_vote: INSERT ... ON CONFLICT (user_id, comment_id) DO UPDATE.
     * A value outside {1, -1} violates the check constraint and changes nothing.
     */
    method UpsertVote(userId: int, commentId: int, voteType: int) returns (r: Result<Vote>)
      requires Valid()
      modifies this
      ensures Valid()
      ensures !IsPolarity(voteType) ==> r == Err(IntegrityError) && rows == old(rows)
      ensures IsPolarity(voteType) ==>
        && r == Ok(Vote(userId, commentId, voteType))
        && rows == Upserted(old(rows), userId, commentId, voteType)
        && Find(rows, userId, commentId) == Some(voteType)
        && forall u, t :: !(u == userId && t == commentId) ==> Find(rows, u, t) == Find(old(rows), u, t)
    {
      if !IsPolarity(voteType) {
        return Err(IntegrityError);
      }
      UpsertedFind(rows, userId, commentId, voteType);
      rows := Upserted(rows, userId, commentId, voteType);
      r := Ok(Vote(userId, commentId, voteType));
    }

    /** remove_vote: deletes the (user, comment) row only; true iff there was one. */
    method RemoveVote(userId: int, commentId: int) returns (removed: bool)
      requires Valid()
      modifies this
      ensures Valid()
      ensures removed <==> Find(old(rows), userId, commentId).Some?
      ensures rows == Removed(old(rows), userId, commentId)
      ensures Find(rows, userId, commentId).None?
      ensures forall u, t :: !(u == userId && t == commentId) ==> Find(rows, u, t) == Find(old(rows), u, t)
    {
      removed := Find(rows, userId, commentId).Some?;
      RemovedFind(rows, userId, commentId);
      rows := Removed(rows, userId, commentId);
    }

    /** get_comment_votes: exactly the rows on that comment. */
    function GetCommentVotes(commentId: int): (r: seq<Vote>)
      reads this
      ensures forall x :: x in r <==> x in rows && x.targetId == commentId
    {
      TargetVotes(rows, commentId)
    }

    /** get_user_votes_for_comments: {comment_id: vote_type} over the listed comments the user voted on. */
    function GetUserVotesForComments(userId: int, commentIds: seq<int>): (m: map<int, int>)
      reads this
      requires Valid()
      ensures commentIds == [] ==> m == map[]
      ensures forall t :: t in m <==> t in commentIds && exists x :: x in rows && SameKey(x, userId, t)
      ensures forall t :: t in m ==> Vote(userId, t, m[t]) in rows
    {
      UserVotesFor(rows, userId, commentIds)
    }
  }
}
