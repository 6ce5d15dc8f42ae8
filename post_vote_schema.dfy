/**
 * The post vote schemas: PostVoteCreate and PostVoteUpdate accept a
 * vote_type only when it is an upvote (1) or a downvote (-1).
 */
module PostVoteSchemas {
  import opened Wrappers
  import VoteRows

  const VoteTypeMessage := "vote_type must be either 1 (upvote) or -1 (downvote)"

  /** The field validator shared by both schemas. */
  function ValidateVoteType(value: int): (r: Result<int>)
    ensures r.Ok? <==> value == 1 || value == -1
    ensures r.Ok? ==> r.value == value
    ensures r.Err? ==> r.error == ValueError(VoteTypeMessage)
  {
    if value != 1 && value != -1 then Err(ValueError(VoteTypeMessage)) else Ok(value)
  }

  datatype PostVoteCreate = PostVoteCreate(userId: int, postId: int, voteType: int)
  datatype PostVoteUpdate = PostVoteUpdate(voteType: int)

  function MakeCreate(userId: int, postId: int, voteType: int): (r: Result<PostVoteCreate>)
    ensures r.Ok? <==> voteType == 1 || voteType == -1
    ensures r.Ok? ==> r.value == PostVoteCreate(userId, postId, voteType)
  {
    match ValidateVoteType(voteType)
    case Ok(v) => Ok(PostVoteCreate(userId, postId, v))
    case Err(e) => Err(ValidationError(e.detail))
  }

  function MakeUpdate(voteType: int): (r: Result<PostVoteUpdate>)
    ensures r.Ok? <==> voteType == 1 || voteType == -1
    ensures r.Ok? ==> r.value == PostVoteUpdate(voteType)
  {
    match ValidateVoteType(voteType)
    case Ok(v) => Ok(PostVoteUpdate(v))
    case Err(e) => Err(ValidationError(e.detail))
  }

  /**
   * Both schemas accept exactly the values the vote table may store, so 0
   * ("remove my vote") is never a storable value.
   */
  lemma AcceptedIsStorable(voteType: int)
    ensures MakeCreate(0, 0, voteType).Ok? <==> VoteRows.IsPolarity(voteType)
    ensures MakeUpdate(voteType).Ok? <==> VoteRows.IsPolarity(voteType)
    ensures MakeCreate(0, 0, 0).Err? && MakeUpdate(0).Err?
  {
  }
}
