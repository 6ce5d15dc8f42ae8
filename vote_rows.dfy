/**
 * The rows of a vote junction table (post_vote or comment_vote) and the
 * functions that say what the repositories and the vote service do to them.
 *
 * A row is (user_id, target_id, vote_type). The tables carry a unique
 * constraint on (user_id, target_id) and a check constraint vote_type IN
 * (1, -1); `WellFormed` is that pair of constraints. The "no vote" state is
 * the absence of a row.
 */
module VoteRows {
  import opened Wrappers

  datatype Vote = Vote(userId: int, targetId: int, voteType: int)

  predicate IsPolarity(v: int) { v == 1 || v == -1 }

  predicate SameKey(row: Vote, userId: int, targetId: int) {
    row.userId == userId && row.targetId == targetId
  }

  /** No row of `rows` is keyed (userId, targetId). */
  ghost predicate KeyAbsent(rows: seq<Vote>, userId: int, targetId: int) {
    forall x :: x in rows ==> !SameKey(x, userId, targetId)
  }

  /**
   * The unique and check constraints of the vote tables: every row holds a
   * polarity and its key appears in no later row.
   */
  ghost predicate WellFormed(rows: seq<Vote>) {
    rows == [] ||
    (&& IsPolarity(rows[0].voteType)
     && KeyAbsent(rows[1..], rows[0].userId, rows[0].targetId)
     && WellFormed(rows[1..]))
  }

  /** SELECT vote_type WHERE user_id = u AND target_id = t (first match). */
  function Find(rows: seq<Vote>, userId: int, targetId: int): (r: Option<int>)
    ensures r.None? <==> KeyAbsent(rows, userId, targetId)
    ensures r.Some? ==> Vote(userId, targetId, r.value) in rows
  {
    if rows == [] then None
    else
      assert rows == [rows[0]] + rows[1..];
      if SameKey(rows[0], userId, targetId) then Some(rows[0].voteType)
      else Find(rows[1..], userId, targetId)
  }

  /** With the unique constraint, the row found is THE row of the pair. */
  lemma {:induction false} FindUnique(rows: seq<Vote>, userId: int, targetId: int, v: int)
    requires WellFormed(rows)
    requires Vote(userId, targetId, v) in rows
    ensures Find(rows, userId, targetId) == Some(v)
  {
    if rows[0] != Vote(userId, targetId, v) {
      assert Vote(userId, targetId, v) in rows[1..];
      FindUnique(rows[1..], userId, targetId, v);
    }
  }

  /** Every stored vote is a polarity. */
  lemma {:induction false} WellFormedPolarity(rows: seq<Vote>, x: Vote)
    requires WellFormed(rows)
    requires x in rows
    ensures IsPolarity(x.voteType)
  {
    if x != rows[0] {
      WellFormedPolarity(rows[1..], x);
    }
  }

  /** DELETE WHERE user_id = u AND target_id = t. */
  function Removed(rows: seq<Vote>, userId: int, targetId: int): (r: seq<Vote>)
    ensures forall x :: x in r <==> x in rows && !SameKey(x, userId, targetId)
  {
    if rows == [] then []
    else if SameKey(rows[0], userId, targetId) then Removed(rows[1..], userId, targetId)
    else [rows[0]] + Removed(rows[1..], userId, targetId)
  }

  /** UPDATE SET vote_type = v WHERE user_id = u AND target_id = t. */
  function Replaced(rows: seq<Vote>, userId: int, targetId: int, v: int): (r: seq<Vote>)
    ensures |r| == |rows|
    ensures forall x :: !SameKey(x, userId, targetId) ==> (x in r <==> x in rows)
    ensures forall x :: x in r && SameKey(x, userId, targetId) ==> x == Vote(userId, targetId, v)
    ensures !KeyAbsent(rows, userId, targetId) ==> Vote(userId, targetId, v) in r
  {
    if rows == [] then []
    else
      assert rows == [rows[0]] + rows[1..];
      var head := if SameKey(rows[0], userId, targetId) then Vote(userId, targetId, v) else rows[0];
      [head] + Replaced(rows[1..], userId, targetId, v)
  }

  /** INSERT ... ON CONFLICT (user_id, target_id) DO UPDATE SET vote_type = v. */
  function Upserted(rows: seq<Vote>, userId: int, targetId: int, v: int): seq<Vote> {
    if Find(rows, userId, targetId).Some? then Replaced(rows, userId, targetId, v)
    else rows + [Vote(userId, targetId, v)]
  }

  /** SELECT * WHERE target_id = t (get_post_votes / get_comment_votes). */
  function TargetVotes(rows: seq<Vote>, targetId: int): (r: seq<Vote>)
    ensures forall x :: x in r <==> x in rows && x.targetId == targetId
  {
    if rows == [] then []
    else if rows[0].targetId == targetId then [rows[0]] + TargetVotes(rows[1..], targetId)
    else TargetVotes(rows[1..], targetId)
  }

  /** Python's `sum(v.vote_type for v in votes)`. */
  function SumTypes(votes: seq<Vote>): int {
    if votes == [] then 0 else votes[0].voteType + SumTypes(votes[1..])
  }

  /** The vote count a target should carry: the sum of its stored polarities. */
  function Tally(rows: seq<Vote>, targetId: int): int {
    SumTypes(TargetVotes(rows, targetId))
  }

  /** The batched lookup: {target_id: vote_type} for the user's rows on the listed targets. */
  function UserVotesFor(rows: seq<Vote>, userId: int, targetIds: seq<int>): (m: map<int, int>)
    requires WellFormed(rows)
    ensures targetIds == [] ==> m == map[]
    ensures forall t :: t in m <==> t in targetIds && Find(rows, userId, t).Some?
    ensures forall t :: t in m ==> Some(m[t]) == Find(rows, userId, t)
  {
    if targetIds == [] then map[]
    else map t | t in targetIds && Find(rows, userId, t).Some? :: Find(rows, userId, t).value
  }

  // ----- the toggle state machine of the vote service -----

  /** The decision of the vote service: which rows remain and the caller's resulting vote. */
  datatype Decision = Decision(rows: seq<Vote>, userVote: Option<int>)

  /**
   * A request of 0 removes the caller's vote; re-sending the stored polarity
   * removes it (toggle-off); anything else inserts or replaces it.
   */
  function Toggle(rows: seq<Vote>, userId: int, targetId: int, requested: int): Decision {
    var existing := Find(rows, userId, targetId);
    if requested == 0 then
      Decision(if existing.Some? then Removed(rows, userId, targetId) else rows, None)
    else if existing.Some? && existing.value == requested then
      Decision(Removed(rows, userId, targetId), None)
    else
      Decision(Upserted(rows, userId, targetId, requested), Some(requested))
  }

  // ----- lemmas -----

  /** A vote's contribution to a tally: its polarity, or 0 for "no vote". */
  function VoteValue(v: Option<int>): int { if v.Some? then v.value else 0 }

  /** Two tables that hold the same rows keyed (u, t) give the same answer for (u, t). */
  lemma FindAgree(rows: seq<Vote>, other: seq<Vote>, userId: int, targetId: int)
    requires WellFormed(rows) && WellFormed(other)
    requires forall x :: SameKey(x, userId, targetId) ==> (x in rows <==> x in other)
    ensures Find(other, userId, targetId) == Find(rows, userId, targetId)
  {
    var f, g := Find(rows, userId, targetId), Find(other, userId, targetId);
    if f.Some? {
      FindUnique(other, userId, targetId, f.value);
    } else {
      assert KeyAbsent(other, userId, targetId);
    }
  }

  lemma {:induction false} RemovedAbsent(rows: seq<Vote>, userId: int, targetId: int)
    requires KeyAbsent(rows, userId, targetId)
    ensures Removed(rows, userId, targetId) == rows
  {
    if rows != [] {
      RemovedAbsent(rows[1..], userId, targetId);
    }
  }

  lemma {:induction false} ReplacedAbsent(rows: seq<Vote>, userId: int, targetId: int, v: int)
    requires KeyAbsent(rows, userId, targetId)
    ensures Replaced(rows, userId, targetId, v) == rows
  {
    if rows != [] {
      ReplacedAbsent(rows[1..], userId, targetId, v);
    }
  }

  lemma {:induction false} RemovedWellFormed(rows: seq<Vote>, userId: int, targetId: int)
    requires WellFormed(rows)
    ensures WellFormed(Removed(rows, userId, targetId))
  {
    if rows != [] {
      RemovedWellFormed(rows[1..], userId, targetId);
      if !SameKey(rows[0], userId, targetId) {
        var r := [rows[0]] + Removed(rows[1..], userId, targetId);
        assert r[1..] == Removed(rows[1..], userId, targetId);
      }
    }
  }

  lemma {:induction false} ReplacedWellFormed(rows: seq<Vote>, userId: int, targetId: int, v: int)
    requires WellFormed(rows)
    requires IsPolarity(v)
    ensures WellFormed(Replaced(rows, userId, targetId, v))
  {
    if rows != [] {
      var tail := rows[1..];
      ReplacedWellFormed(tail, userId, targetId, v);
      if SameKey(rows[0], userId, targetId) {
        ReplacedAbsent(tail, userId, targetId, v);
      }
      var r := Replaced(rows, userId, targetId, v);
      assert r[1..] == Replaced(tail, userId, targetId, v);
    }
  }

  lemma {:induction false} AppendWellFormed(rows: seq<Vote>, x: Vote)
    requires WellFormed(rows)
    requires KeyAbsent(rows, x.userId, x.targetId)
    requires IsPolarity(x.voteType)
    ensures WellFormed(rows + [x])
  {
    if rows != [] {
      assert rows[0] in rows;
      assert (rows + [x])[1..] == rows[1..] + [x];
      AppendWellFormed(rows[1..], x);
    } else {
      assert [x][1..] == [];
    }
  }

  /** After a delete the pair has no vote, and every other pair's vote is unchanged. */
  lemma RemovedFind(rows: seq<Vote>, userId: int, targetId: int)
    requires WellFormed(rows)
    ensures WellFormed(Removed(rows, userId, targetId))
    ensures Find(Removed(rows, userId, targetId), userId, targetId).None?
    ensures forall u, t :: !(u == userId && t == targetId) ==>
      Find(Removed(rows, userId, targetId), u, t) == Find(rows, u, t)
  {
    var r := Removed(rows, userId, targetId);
    RemovedWellFormed(rows, userId, targetId);
    forall u, t | !(u == userId && t == targetId) ensures Find(r, u, t) == Find(rows, u, t) {
      FindAgree(rows, r, u, t);
    }
  }

  /** After an upsert the pair holds exactly the new value, and every other pair's vote is unchanged. */
  lemma UpsertedFind(rows: seq<Vote>, userId: int, targetId: int, v: int)
    requires WellFormed(rows)
    requires IsPolarity(v)
    ensures WellFormed(Upserted(rows, userId, targetId, v))
    ensures Find(Upserted(rows, userId, targetId, v), userId, targetId) == Some(v)
    ensures forall u, t :: !(u == userId && t == targetId) ==>
      Find(Upserted(rows, userId, targetId, v), u, t) == Find(rows, u, t)
  {
    var r := Upserted(rows, userId, targetId, v);
    if Find(rows, userId, targetId).Some? {
      ReplacedWellFormed(rows, userId, targetId, v);
    } else {
      AppendWellFormed(rows, Vote(userId, targetId, v));
    }
    FindUnique(r, userId, targetId, v);
    forall u, t | !(u == userId && t == targetId) ensures Find(r, u, t) == Find(rows, u, t) {
      FindAgree(rows, r, u, t);
    }
  }

  lemma TallyCons(rows: seq<Vote>, target: int)
    requires rows != []
    ensures Tally(rows, target) ==
      (if rows[0].targetId == target then rows[0].voteType else 0) + Tally(rows[1..], target)
  {
    if rows[0].targetId == target {
      assert ([rows[0]] + TargetVotes(rows[1..], target))[1..] == TargetVotes(rows[1..], target);
    }
  }

  /** Deleting the (u, t) row takes its polarity off t's tally and leaves every other tally alone. */
  lemma {:induction false} TallyRemoved(rows: seq<Vote>, userId: int, targetId: int, target: int)
    requires WellFormed(rows)
    ensures Tally(Removed(rows, userId, targetId), target) == Tally(rows, target) -
      (if target == targetId then VoteValue(Find(rows, userId, targetId)) else 0)
  {
    if rows != [] {
      var tail := rows[1..];
      TallyCons(rows, target);
      if SameKey(rows[0], userId, targetId) {
        RemovedAbsent(tail, userId, targetId);
      } else {
        TallyRemoved(tail, userId, targetId, target);
        var r := [rows[0]] + Removed(tail, userId, targetId);
        assert r[1..] == Removed(tail, userId, targetId);
        TallyCons(r, target);
      }
    }
  }

  /** Overwriting the (u, t) row's value moves t's tally by the difference, and no other tally. */
  lemma {:induction false} TallyReplaced(rows: seq<Vote>, userId: int, targetId: int, v: int, target: int)
    requires WellFormed(rows)
    ensures Tally(Replaced(rows, userId, targetId, v), target) == Tally(rows, target) +
      (if target == targetId && Find(rows, userId, targetId).Some?
       then v - Find(rows, userId, targetId).value else 0)
  {
    if rows != [] {
      var tail := rows[1..];
      var r := Replaced(rows, userId, targetId, v);
      assert r[1..] == Replaced(tail, userId, targetId, v);
      TallyCons(rows, target);
      TallyCons(r, target);
      if SameKey(rows[0], userId, targetId) {
        ReplacedAbsent(tail, userId, targetId, v);
      } else {
        TallyReplaced(tail, userId, targetId, v, target);
      }
    }
  }

  lemma {:induction false} SumTypesAppend(a: seq<Vote>, b: seq<Vote>)
    ensures SumTypes(a + b) == SumTypes(a) + SumTypes(b)
  {
    if a != [] {
      assert (a + b)[0] == a[0] && (a + b)[1..] == a[1..] + b;
      SumTypesAppend(a[1..], b);
    } else {
      assert a + b == b;
    }
  }

  lemma {:induction false} TargetVotesAppend(a: seq<Vote>, b: seq<Vote>, targetId: int)
    ensures TargetVotes(a + b, targetId) == TargetVotes(a, targetId) + TargetVotes(b, targetId)
  {
    if a != [] {
      assert (a + b)[0] == a[0] && (a + b)[1..] == a[1..] + b;
      TargetVotesAppend(a[1..], b, targetId);
    } else {
      assert a + b == b;
    }
  }

  lemma TallyAppend(rows: seq<Vote>, x: Vote, target: int)
    ensures Tally(rows + [x], target) ==
      Tally(rows, target) + (if x.targetId == target then x.voteType else 0)
  {
    TargetVotesAppend(rows, [x], target);
    SumTypesAppend(TargetVotes(rows, target), TargetVotes([x], target));
    assert [x][1..] == [];
  }

  /** The upsert moves t's tally by the new value minus the old vote, and no other tally. */
  lemma TallyUpserted(rows: seq<Vote>, userId: int, targetId: int, v: int, target: int)
    requires WellFormed(rows)
    ensures Tally(Upserted(rows, userId, targetId, v), target) == Tally(rows, target) +
      (if target == targetId then v - VoteValue(Find(rows, userId, targetId)) else 0)
  {
    if Find(rows, userId, targetId).Some? {
      TallyReplaced(rows, userId, targetId, v, target);
    } else {
      TallyAppend(rows, Vote(userId, targetId, v), target);
    }
  }

  /** The toggle keeps the table's constraints and touches only the caller's row on that target. */
  lemma ToggleFind(rows: seq<Vote>, userId: int, targetId: int, requested: int)
    requires WellFormed(rows)
    requires requested in {-1, 0, 1}
    ensures WellFormed(Toggle(rows, userId, targetId, requested).rows)
    ensures Find(Toggle(rows, userId, targetId, requested).rows, userId, targetId) ==
      Toggle(rows, userId, targetId, requested).userVote
    ensures forall u, t :: !(u == userId && t == targetId) ==>
      Find(Toggle(rows, userId, targetId, requested).rows, u, t) == Find(rows, u, t)
  {
    var existing := Find(rows, userId, targetId);
    if requested == 0 && existing.None? {
    } else if requested == 0 || (existing.Some? && existing.value == requested) {
      RemovedFind(rows, userId, targetId);
    } else {
      UpsertedFind(rows, userId, targetId, requested);
    }
  }

  /** A toggle moves the target's tally by the caller's new vote minus the old one, and no other tally. */
  lemma ToggleTally(rows: seq<Vote>, userId: int, targetId: int, requested: int, target: int)
    requires WellFormed(rows)
    ensures Tally(Toggle(rows, userId, targetId, requested).rows, target) == Tally(rows, target) +
      (if target != targetId then 0
       else VoteValue(Toggle(rows, userId, targetId, requested).userVote)
            - VoteValue(Find(rows, userId, targetId)))
  {
    var existing := Find(rows, userId, targetId);
    if requested == 0 && existing.None? {
    } else if requested == 0 || (existing.Some? && existing.value == requested) {
      TallyRemoved(rows, userId, targetId, target);
    } else {
      TallyUpserted(rows, userId, targetId, requested, target);
    }
  }

  lemma {:induction false} RemovedAppend(rows: seq<Vote>, x: Vote, userId: int, targetId: int)
    ensures Removed(rows + [x], userId, targetId) ==
      Removed(rows, userId, targetId) + (if SameKey(x, userId, targetId) then [] else [x])
  {
    if rows != [] {
      assert (rows + [x])[1..] == rows[1..] + [x];
      RemovedAppend(rows[1..], x, userId, targetId);
    } else {
      assert [x][1..] == [];
    }
  }

  /** Sending the same polarity twice from the no-vote state restores the table exactly. */
  lemma ToggleTwiceRestores(rows: seq<Vote>, userId: int, targetId: int, requested: int)
    requires WellFormed(rows)
    requires IsPolarity(requested)
    requires Find(rows, userId, targetId).None?
    ensures Toggle(Toggle(rows, userId, targetId, requested).rows, userId, targetId, requested) ==
      Decision(rows, None)
  {
    var once := rows + [Vote(userId, targetId, requested)];
    assert Toggle(rows, userId, targetId, requested).rows == once;
    UpsertedFind(rows, userId, targetId, requested);
    RemovedAbsent(rows, userId, targetId);
    RemovedAppend(rows, Vote(userId, targetId, requested), userId, targetId);
  }

  /** Flipping an upvote to a downvote lowers the tally by exactly 2, and the caller's vote becomes -1. */
  lemma FlipUpToDown(rows: seq<Vote>, userId: int, targetId: int)
    requires WellFormed(rows)
    requires Find(rows, userId, targetId) == Some(1)
    ensures Toggle(rows, userId, targetId, -1).userVote == Some(-1)
    ensures Tally(Toggle(rows, userId, targetId, -1).rows, targetId) == Tally(rows, targetId) - 2
  {
    ToggleTally(rows, userId, targetId, -1, targetId);
  }

  /** A request of 0 with no stored vote changes nothing. */
  lemma RemoveWithoutVoteIsNoop(rows: seq<Vote>, userId: int, targetId: int)
    requires Find(rows, userId, targetId).None?
    ensures Toggle(rows, userId, targetId, 0) == Decision(rows, None)
  {
  }
}
