# Online forum backend: a verified model of its core

This project models the core rules of the FastAPI forum backend in Dafny and
proves properties of the model. The core covers:

- the post and comment vote engine: a toggle per (voter, target), followed by
  a full recount written back to the target's `vote_count`;
- the report guard: a 24-hour duplicate check in front of a table whose
  (reporter, type, id) triple is unique, plus the moderator's resolution;
- the ownership and role checks every service inherits;
- the post, comment, topic and post–topic link tables, with their queries:
  feed, search, replies, pagination and counts;
- the look-ahead pagination and the view-count rule of the post endpoints;
- topic creation and listing;
- the input validators of the user, report and vote schemas.

Each table is a class whose `seq` (or `set`, for the link table) field the
repository methods update. Queries are functions over that state. Each service
is a class holding references to the repositories it uses, and each service
operation is a method whose `ensures` states the error it raises and the new
state of every table it touches, on the failure paths as well as on success.
A failure is not rolled back: when a step fails after an earlier step of the
same operation wrote to a table, that write stays, and the contract says so
(`PostService.PostService.UpdatePost`).

The pure rules are stated once, as functions, and the methods are proved
against them:

- `VoteRows.Toggle` and `VoteRows.Tally` for voting;
- `ReportService.Admit` for the report guard;
- `Ordering.Page` and `Ordering.SortBy` for ordering and pagination;
- `TopicService.PostCount` for topic post counts.

Files, one module each:

| file | module | models |
|---|---|---|
| wrappers.dfy | Wrappers | Option, Result and the exceptions the services raise |
| ordering.dfy | Ordering | WHERE, ORDER BY and OFFSET/LIMIT over a table; text ordering |
| vote_rows.dfy | VoteRows | a vote junction table's rows and constraints; the toggle and the tally |
| post_vote_repo.dfy, comment_vote_repo.dfy | PostVotes, CommentVotes | the two vote repositories |
| post_vote_schema.dfy, comment_vote_schema.dfy | PostVoteSchemas, CommentVoteSchemas | the vote_type validators |
| post_repo.dfy | Posts | the post table, the post_topic link table and the post repository |
| comment_repo.dfy | Comments | the comment table and the comment repository |
| topic_repo.dfy | Topics | the topic table and the topic repository |
| report_schema.dfy, report_repo.dfy | ReportSchemas, Reports | the report schemas, table and repository |
| user_schema.dfy | UserSchemas | the signup validators and the role enumeration |
| base_service.dfy | BaseService | the inherited lookup and permission checks |
| vote_service.dfy, report_service.dfy, post_service.dfy, topic_service.dfy | VoteService, ReportService, PostService, TopicService | the services |
| post_endpoints.dfy, topic_endpoints.dfy | PostEndpoints, TopicEndpoints | the handlers' own rules |

The wall clock is an integer parameter `now`, in seconds. The caller's id and
role, which come from the authentication dependency, are parameters too.

## Model

| member | source | states |
|---|---|---|
| VoteRows.Find | backEnd/app/repos/post_vote.py:26-33 | the lookup of a (user, target) pair is None iff no row has that pair, and otherwise returns a stored row's vote |
| VoteRows.FindUnique | backEnd/app/models/junctions/post_vote.py:18 | under the unique constraint, the row found for a pair is the only row of that pair |
| VoteRows.WellFormedPolarity | backEnd/app/models/junctions/post_vote.py:19 | every stored vote_type is 1 or -1 |
| VoteRows.Removed | backEnd/app/repos/post_vote.py:76-84 | the delete keeps exactly the rows of other pairs |
| VoteRows.Replaced | backEnd/app/repos/post_vote.py:52-63 | the update rewrites only the pair's row, to the new value, and keeps every other row |
| VoteRows.TargetVotes | backEnd/app/repos/post_vote.py:96-98 | the votes of a target are exactly the rows with that target id |
| VoteRows.UserVotesFor | backEnd/app/repos/post_vote.py:115-127 | the batched lookup is empty for an empty list; otherwise its keys are exactly the listed targets the user voted on, each mapped to that vote |
| VoteRows.RemovedFind | backEnd/app/repos/post_vote.py:76-84 | after the delete the pair has no vote, every other pair's vote is unchanged, and the constraints still hold |
| VoteRows.UpsertedFind | backEnd/app/repos/post_vote.py:52-63 | after the upsert the pair holds exactly the new value, every other pair's vote is unchanged, and the constraints still hold |
| VoteRows.RemovedWellFormed | backEnd/app/models/junctions/post_vote.py:18-19 | the delete keeps the unique and check constraints |
| VoteRows.ReplacedWellFormed | backEnd/app/models/junctions/post_vote.py:18-19 | overwriting a row with a polarity keeps both constraints |
| VoteRows.AppendWellFormed | backEnd/app/models/junctions/post_vote.py:18-19 | inserting a polarity for a pair that has no row keeps both constraints |
| VoteRows.TallyRemoved | backEnd/app/services/vote_service.py:70-71 | the delete takes the removed vote off its target's sum and changes no other target's sum |
| VoteRows.TallyReplaced | backEnd/app/services/vote_service.py:70-71 | the overwrite moves the target's sum by the new value minus the old, and no other sum |
| VoteRows.TallyUpserted | backEnd/app/services/vote_service.py:70-71 | the upsert moves the target's sum by the new value minus the old vote (0 if none), and no other sum |
| VoteRows.ToggleFind | backEnd/app/services/vote_service.py:55-67 | the toggle keeps the constraints, leaves the caller's vote equal to the returned user_vote, and changes no other (user, target) pair |
| VoteRows.ToggleTally | backEnd/app/services/vote_service.py:55-71 | the toggle moves the target's sum by the caller's new vote minus the old one, and no other target's sum |
| VoteRows.ToggleTwiceRestores | backEnd/app/services/vote_service.py:60-71 | sending the same non-zero vote twice from no vote restores the table, and so the count, and leaves no vote |
| VoteRows.FlipUpToDown | backEnd/app/services/vote_service.py:64-71 | flipping an upvote to a downvote lowers the sum by exactly 2 and returns user_vote -1 |
| VoteRows.RemoveWithoutVoteIsNoop | backEnd/app/services/vote_service.py:55-59 | a request of 0 with no stored vote changes nothing and returns user_vote None |
| PostVotes.PostVoteRepo.GetUserVote | backEnd/app/repos/post_vote.py:26-33 | the single row for (user, post), with a polarity, or None iff there is none |
| PostVotes.PostVoteRepo.UpsertVote | backEnd/app/repos/post_vote.py:52-63 | afterwards the pair's row holds the value and no other pair changes; a non-polarity is refused by the check constraint and changes nothing |
| PostVotes.PostVoteRepo.RemoveVote | backEnd/app/repos/post_vote.py:76-84 | only the (user, post) row is deleted, and the result is true iff it existed |
| PostVotes.PostVoteRepo.GetPostVotes | backEnd/app/repos/post_vote.py:96-98 | exactly the rows of that post |
| PostVotes.PostVoteRepo.GetUserVotesForPosts | backEnd/app/repos/post_vote.py:115-127 | {} for an empty list; otherwise each listed post the user voted on, mapped to that stored vote, and no other key |
| CommentVotes.CommentVoteRepo.GetUserVote | backEnd/app/repos/comment_vote.py:26-33 | the single row for (user, comment), with a polarity, or None iff there is none |
| CommentVotes.CommentVoteRepo.UpsertVote | backEnd/app/repos/comment_vote.py:52-63 | afterwards the pair's row holds the value and no other pair changes; a non-polarity changes nothing |
| CommentVotes.CommentVoteRepo.RemoveVote | backEnd/app/repos/comment_vote.py:76-84 | only the (user, comment) row is deleted, and the result is true iff it existed |
| CommentVotes.CommentVoteRepo.GetCommentVotes | backEnd/app/repos/comment_vote.py:96-98 | exactly the rows of that comment |
| CommentVotes.CommentVoteRepo.GetUserVotesForComments | backEnd/app/repos/comment_vote.py:115-127 | {} for an empty list; otherwise each listed comment the user voted on, mapped to that stored vote |
| PostVoteSchemas.ValidateVoteType | backEnd/app/schemas/post_vote.py:13-18 | accepts iff the value is 1 or -1, and returns it unchanged |
| PostVoteSchemas.MakeCreate | backEnd/app/schemas/post_vote.py:6-18 | PostVoteCreate is built iff vote_type is 1 or -1 |
| PostVoteSchemas.MakeUpdate | backEnd/app/schemas/post_vote.py:21-31 | PostVoteUpdate applies the same rule |
| PostVoteSchemas.AcceptedIsStorable | backEnd/app/schemas/post_vote.py:13-31 | both schemas accept exactly the storable polarities, so 0 is rejected by both |
| CommentVoteSchemas.ValidateVoteType | backEnd/app/schemas/comment_vote.py:13-18 | accepts iff the value is 1 or -1, and returns it unchanged |
| CommentVoteSchemas.MakeCreate | backEnd/app/schemas/comment_vote.py:6-18 | CommentVoteCreate is built iff vote_type is 1 or -1 |
| CommentVoteSchemas.MakeUpdate | backEnd/app/schemas/comment_vote.py:21-31 | CommentVoteUpdate applies the same rule |
| CommentVoteSchemas.AcceptedIsStorable | backEnd/app/schemas/comment_vote.py:13-31 | both schemas accept exactly the storable polarities, so 0 is rejected by both |
| VoteService.PostVoteKeepsSync | backEnd/app/services/vote_service.py:55-79 | if every post's vote_count equals its sum before a vote, then after the toggle and the write-back every post's count still equals its sum |
| VoteService.CommentVoteKeepsSync | backEnd/app/services/vote_service.py:110-134 | the same for comments |
| VoteService.RecountIsDelta | backEnd/app/services/vote_service.py:70-71 | the recount equals the old sum plus the caller's new vote minus their old one |
| VoteService.VoteService.TogglePost | backEnd/app/services/vote_service.py:52-67 | the vote table becomes the toggle's table and the caller's vote is returned; an out-of-range value is refused at the upsert with nothing changed |
| VoteService.VoteService.VoteOnPost | backEnd/app/services/vote_service.py:26-79 | NotFound for a missing post, before any vote is read or changed; otherwise the toggle, the returned count equals the post's vote sum, only that post's vote_count is overwritten with it, the caller's stored vote is the returned user_vote, and count-equals-sum is preserved |
| VoteService.VoteService.ToggleComment | backEnd/app/services/vote_service.py:107-122 | the comment vote table becomes the toggle's table and the caller's vote is returned |
| VoteService.VoteService.VoteOnComment | backEnd/app/services/vote_service.py:81-134 | the same rules as VoteOnPost, over comments and comment votes |
| Posts.Updated | backEnd/app/repos/post.py:204-209 | a single-row UPDATE changes the row with that id and no other |
| Posts.FindPost | backEnd/app/repos/post.py:164-169 | the row with that id, or None iff there is none |
| Posts.FindPostUnique | backEnd/app/models/post.py:28-33 | with unique ids, the lookup returns the one row with that id |
| Posts.UpdatedFind | backEnd/app/repos/post.py:164-225 | a single-row update keeps ids unique, changes the row with that id as the change says, and leaves every other id's row alone |
| Posts.SoftDeleteIdempotent | backEnd/app/repos/post.py:222-225 | soft-deleting twice is the same as once |
| Posts.FeedOrderTotal | backEnd/app/repos/post.py:50-61 | each feed order is a total preorder, so ORDER BY is well defined |
| Posts.Lower | backEnd/app/repos/post.py:123 | ASCII case folding keeps the length and only maps letters |
| Posts.OccursShift | backEnd/app/repos/post.py:123 | an occurrence of the query past the first position is an occurrence in the rest of the text |
| Posts.Contains | backEnd/app/repos/post.py:123 | `%q%` matches iff the query occurs at some position of the text |
| Posts.SearchOrderTotal | backEnd/app/repos/post.py:136-142 | the search order (title match first, then votes, then age) is a total preorder |
| Posts.PostRepo.Get | backEnd/app/repos/post.py:164-169 | the post with that id, or None iff there is none |
| Posts.PostRepo.TopicsOf | backEnd/app/repos/post.py:227-266 | the set of topic ids linked to a post |
| Posts.PostRepo.Feed | backEnd/app/repos/post.py:42-61 | every post passing the deletion and topic filters, and nothing else, in the requested order |
| Posts.PostRepo.FeedRows | backEnd/app/repos/post.py:42-61 | the rows of the feed query before OFFSET/LIMIT: the join with post_topic repeats a post once per listed topic it is linked to, so the rows hold exactly the feed's posts, in feed order, and without a topic filter or with one topic they are the feed itself |
| Posts.PostRepo.GetFeed | backEnd/app/repos/post.py:18-73 | OFFSET/LIMIT applies to the joined rows and `.unique()` then drops repeats: the result holds exactly the posts of that page of rows, each once, in feed order, at most limit of them; without a topic filter or with one topic it is exactly page (skip, limit) of the feed |
| Posts.TwoTopicsCrowdThePage | backEnd/app/repos/post.py:43-73 | with two topic ids, a post linked to both fills two rows of the page, so a page of limit 2 over a feed of two posts returns one post |
| Posts.UserPosts | backEnd/app/repos/post.py:94-99 | exactly that author's posts (deleted ones only on request), newest first |
| Posts.PostRepo.GetByUser | backEnd/app/repos/post.py:75-102 | exactly page (skip, limit) of that author's posts, newest first |
| Posts.PostRepo.SearchRows | backEnd/app/repos/post.py:123-142 | every post whose title or content contains the query, case-insensitively, and nothing else, title matches first |
| Posts.PostRepo.Search | backEnd/app/repos/post.py:104-151 | exactly page (skip, limit) of the matching posts (non-deleted by default), title matches first, then vote_count, then created_at descending |
| Posts.PostRepo.CreateOne | backEnd/app/services/post_service.py:72 | a new row with the next id, the author, title and content, zero counters, not deleted, appended |
| Posts.PostRepo.UpdateRow | backEnd/app/services/post_service.py:116-120 | only the given title and content of that post change; true iff it exists |
| Posts.PostRepo.IncrementViewCount | backEnd/app/repos/post.py:164-169 | view_count of that post only goes up by 1; true iff the post exists |
| Posts.PostRepo.IncrementCommentCount | backEnd/app/repos/post.py:185-190 | comment_count of that post only moves by the increment; true iff the post exists |
| Posts.PostRepo.UpdateVoteCount | backEnd/app/repos/post.py:204-209 | only vote_count of that post is set, to the value given; true iff the post exists |
| Posts.PostRepo.SoftDelete | backEnd/app/repos/post.py:222-225 | only is_deleted of that post is set; true iff the post exists |
| Posts.PostRepo.AssociateTopics | backEnd/app/repos/post.py:227-255 | ValueError and no change unless 1..5 ids are given; otherwise the links grow by exactly the (post, id) pairs, existing pairs being no-ops |
| Posts.PostRepo.RemoveAssociations | backEnd/app/repos/post.py:257-266 | every link of that post goes, and no other link |
| Comments.Updated | backEnd/app/repos/comment.py:180-202 | a single-row update changes the row with that id and no other |
| Comments.FindComment | backEnd/app/repos/comment.py:218-220 | the row with that id, or None iff there is none |
| Comments.UpdatedFind | backEnd/app/repos/comment.py:180-202 | a single-row update keeps ids unique and changes only the row with that id |
| Comments.CommentOrderTotal | backEnd/app/repos/comment.py:42-47 | "best", "old" and any other sort value each give a total preorder |
| Comments.Selected | backEnd/app/repos/comment.py:36-47 | exactly the rows passing the filter, in the order the sort value names |
| Comments.Query | backEnd/app/repos/comment.py:36-55 | exactly page (skip, limit) of the selected rows, hence only rows passing the filter, in the sort order, at most limit of them |
| Comments.CommentRepo.Get | backEnd/app/repos/comment.py:218-220 | the comment with that id, or None iff there is none |
| Comments.CommentRepo.GetByPost | backEnd/app/repos/comment.py:15-55 | exactly page (skip, limit) of that post's comments, deleted ones only on request, sorted by the sort value |
| Comments.CommentRepo.GetReplies | backEnd/app/repos/comment.py:57-91 | exactly the children of the parent (deleted ones only on request), sorted, not paginated; the result is exactly the sorted selection, so each child appears as often as in the table |
| Comments.CommentRepo.GetTopLevelComments | backEnd/app/repos/comment.py:93-138 | exactly page (skip, limit) of that post's comments with no parent, sorted |
| Comments.CommentRepo.GetByUser | backEnd/app/repos/comment.py:140-167 | exactly page (skip, limit) of that author's comments, newest first |
| Comments.CommentRepo.UpdateRow | backEnd/app/repos/comment.py:180-187 | the change is applied to that comment only; true iff it exists |
| Comments.CommentRepo.UpdateVoteCount | backEnd/app/repos/comment.py:169-187 | only vote_count of that comment is set; true iff it exists |
| Comments.CommentRepo.SoftDelete | backEnd/app/repos/comment.py:189-202 | only is_deleted of that comment is set; true iff it exists |
| Comments.CommentRepo.ValidateDepth | backEnd/app/repos/comment.py:204-225 | (true, 0) with no parent; (false, -1) for a missing parent; otherwise depth parent+1, valid iff at most max_depth |
| Comments.DepthBound | backEnd/app/repos/comment.py:204 | with the default bound 5, a reply is accepted iff its parent's depth is below 5 |
| Topics.ByNameTotal | backEnd/app/repos/topic.py:24-31 | ordering by name is a total preorder |
| Topics.First | backEnd/app/repos/topic.py:74-77 | the first row satisfying the condition, or None iff none does |
| Topics.CountListed | backEnd/app/models/topic.py:13-26 | under the primary key, the rows selected by a list of ids are as many as the distinct listed ids that exist |
| Topics.CountShown | backEnd/app/repos/topic.py:24-31 | the listed topics are as many as their distinct ids |
| Topics.TopicRepo.Get | backEnd/app/services/topic_service.py:91 | the topic with that id, or None iff there is none |
| Topics.TopicRepo.GetAll | backEnd/app/repos/topic.py:14-32 | exactly the topics (only active ones when asked), ordered by name, each once |
| Topics.TopicRepo.GetBySlug | backEnd/app/repos/topic.py:34-47 | the one topic with exactly that slug, or None iff none |
| Topics.TopicRepo.GetByName | backEnd/app/repos/topic.py:49-62 | the one topic with exactly that name, or None iff none |
| Topics.TopicRepo.GetByNameOrSlug | backEnd/app/repos/topic.py:64-77 | a topic whose name or slug equals the one given, or None iff no topic has either |
| Topics.TopicRepo.GetAllByIds | backEnd/app/services/post_service.py:44 | exactly the topics whose id is listed, as many as the distinct listed ids that exist |
| Topics.TopicRepo.CreateOne | backEnd/app/api/v1/endpoints/topic.py:42 | a new active topic with the next id is appended; a taken name or slug is refused by the unique constraints |
| ReportSchemas.ParseType | backEnd/app/schemas/report.py:8 | a reportable_type literal is accepted as itself |
| ReportSchemas.ParseReason | backEnd/app/schemas/report.py:9 | a reason literal is accepted as itself |
| ReportSchemas.ParseStatus | backEnd/app/schemas/report.py:10 | a status literal is accepted as itself |
| ReportSchemas.LiteralsRoundTrip | backEnd/app/schemas/report.py:8-10 | every literal of the three enumerations parses back to itself |
| ReportSchemas.ValidateDetailsForOther | backEnd/app/schemas/report.py:21-26 | refuses iff the reason is "other" and details are missing or empty; otherwise returns details unchanged |
| ReportSchemas.MakeReportCreate | backEnd/app/schemas/report.py:13-26 | a payload validates iff type and reason are literals, details are at most 500 characters, and "other" comes with non-empty details; the fields are kept |
| ReportSchemas.MakeReportUpdate | backEnd/app/schemas/report.py:29-33 | status is optional and, when given, must be a status literal |
| Reports.Updated | backEnd/app/repos/report.py:175-202 | the resolve rewrites the row with that id and no other |
| Reports.FindReport | backEnd/app/repos/report.py:175-202 | the row with that id, or None iff there is none |
| Reports.First | backEnd/app/repos/report.py:34-42 | the first row satisfying the condition, or None iff none does |
| Reports.TypeNameInjective | backEnd/app/schemas/report.py:8 | distinct types have distinct literals |
| Reports.SameItemUnique | backEnd/app/models/report.py:27-32 | under the unique constraint, two rows by one reporter on one item are the same row |
| Reports.UpdatedFind | backEnd/app/repos/report.py:175-202 | a resolve changes the row with that id and leaves every other id's row alone |
| Reports.UpdatedItems | backEnd/app/repos/report.py:175-202 | a resolve keeps the primary key and the unique constraint |
| Reports.Selected | backEnd/app/repos/report.py:91-95 | exactly the rows passing the filter, newest first |
| Reports.Query | backEnd/app/repos/report.py:91-97 | exactly page (skip, limit) of the selected rows, hence only rows passing the filter, newest first, at most limit of them |
| Reports.UnknownStatusMatchesNothing | backEnd/app/repos/report.py:91-97 | a status string outside the literals selects no report |
| Reports.PendingCount | backEnd/app/repos/report.py:240-243 | the pending rows are as many as their distinct ids |
| Reports.PendingName | backEnd/app/repos/report.py:119 | "pending" names the pending status and no other |
| Reports.ForallSameItemUnique | backEnd/app/models/report.py:27-32 | at most one report matches a (reporter, type, id) triple |
| Reports.ReportRepo.Get | backEnd/app/services/report_service.py:137 | the report with that id, or None iff there is none |
| Reports.ReportRepo.CheckDuplicate | backEnd/app/repos/report.py:17-42 | the one report matching reporter, type and id, or None iff none |
| Reports.ReportRepo.CheckDuplicateWithinTimeframe | backEnd/app/repos/report.py:44-72 | a matching report created at or after `since`, or None iff every matching report is older |
| Reports.ReportRepo.GetByStatus | backEnd/app/repos/report.py:74-106 | exactly page (skip, limit) of the reports with that status, newest first; nothing for an unknown status |
| Reports.ReportRepo.GetPending | backEnd/app/repos/report.py:108-119 | exactly page (skip, limit) of the pending reports, newest first |
| Reports.ReportRepo.GetForItem | backEnd/app/repos/report.py:121-154 | exactly the reports on that item, newest first, not paginated; the result is exactly the sorted selection, so each report appears as often as in the table |
| Reports.ReportRepo.GetByReporter | backEnd/app/repos/report.py:204-230 | exactly page (skip, limit) of that reporter's reports, newest first |
| Reports.ReportRepo.CountPending | backEnd/app/repos/report.py:232-243 | the number of pending reports, 0 when there are none |
| Reports.ReportRepo.ResolveReport | backEnd/app/repos/report.py:156-202 | None and no change for a missing id; otherwise status, resolver, note and time of that row only are overwritten whatever its status was; a non-literal status is refused by the check constraint |
| Reports.ReportRepo.CreateOne | backEnd/app/models/report.py:27-32 | a pending, unresolved report with the next id is appended; a second report on the same triple is refused however old the first is |
| ReportService.NatToStringDigits | backEnd/app/services/report_service.py:53 | str() of a number is its decimal digits, with no leading zero, and they spell the number back |
| ReportService.IntToStringInjective | backEnd/app/services/report_service.py:53 | distinct ids give distinct strings in the duplicate key |
| ReportService.DuplicateCache.Exists | backEnd/app/services/report_service.py:58 | EXISTS fails iff the cache fails, and is true iff the key is set and not expired |
| ReportService.DuplicateCache.SetEx | backEnd/app/services/report_service.py:101 | SETEX makes the key live for ttl seconds from now, or fails and changes nothing |
| ReportService.Admit | backEnd/app/services/report_service.py:56-96 | Conflict iff a report by that reporter on that item exists from the last 24 hours; success only when no earlier report on the item exists at all, with the validated payload |
| ReportService.ReReportAfterWindowFails | backEnd/app/models/report.py:27-32 | a valid re-report after the 24-hour window still fails, on the unique constraint |
| ReportService.AdmitDocumented | backEnd/app/services/report_service.py:50-61 | the documented rule: a cache hit is the conflict "You can only report this content once per 24 hours"; otherwise a valid report is admitted iff no report on the item falls in the last 24 hours |
| ReportService.AdmitAgainstDocumented | backEnd/app/services/report_service.py:56-96 | the code and the documented rule decide differently exactly on a cache hit, and on a valid report whose earlier reports on the item are all older than 24 hours |
| ReportService.FirstReportAdmitted | backEnd/app/services/report_service.py:68-96 | with no earlier report on the item, a valid payload is always admitted |
| ReportService.LastResolutionWins | backEnd/app/services/report_service.py:143-157 | resolving twice equals resolving once with the second decision; id and creation time never change |
| ReportService.ReportService.CreateReport | backEnd/app/services/report_service.py:27-106 | the outcome is Admit's whatever the cache says; on success exactly one pending report is appended and the duplicate key is set for 86400 s when the cache works; on failure nothing changes |
| ReportService.ReportService.ResolveReport | backEnd/app/services/report_service.py:108-157 | Forbidden for non-moderators before the lookup, then NotFound, neither changing state; otherwise the service's own UPDATE ... RETURNING overwrites status, resolver, note and time of that row only, whatever its status was, and returns the new row; a non-literal status is refused by the check constraint |
| ReportService.ReportService.GetPendingReports | backEnd/app/services/report_service.py:159-170 | exactly page (skip, limit) of the pending reports, newest first |
| ReportService.ReportService.GetReportsForItem | backEnd/app/services/report_service.py:172-186 | exactly the reports on that item, newest first; the result is exactly the sorted selection, so each report appears as often as in the table |
| ReportService.ReportService.CountPendingReports | backEnd/app/services/report_service.py:188-195 | the number of pending reports |
| UserSchemas.ParseRole | backEnd/app/schemas/user.py:22-27 | a role is one of the three strings, accepted as itself |
| UserSchemas.RoleRoundTrip | backEnd/app/schemas/user.py:22-27 | each role's string parses back to that role |
| UserSchemas.AllIn | backEnd/app/schemas/user.py:15 | the character-class repetition holds iff every character is in the class |
| UserSchemas.SomeIn | backEnd/app/schemas/user.py:10 | a lookahead holds iff some character is in the class |
| UserSchemas.ValidateUsername | backEnd/app/schemas/user.py:95-101 | accepts iff 3..50 characters, all letters, digits or underscore; returns the value unchanged |
| UserSchemas.ValidatePassword | backEnd/app/schemas/user.py:103-109 | accepts iff at least 8 characters, with a lowercase letter, an uppercase letter, a digit and one of @$!%*?&, and no other characters; returns the value unchanged |
| UserSchemas.SignupUsername | backEnd/app/schemas/user.py:77-84 | the field bounds and the validator together accept exactly what the validator accepts |
| UserSchemas.SignupPassword | backEnd/app/schemas/user.py:86-93 | a password is accepted iff the validator accepts it and it has at most 50 characters |
| BaseService.GetOr404 | backEnd/app/services/base_service.py:48-51 | the row found, or NotFound naming the resource iff there is none |
| BaseService.VerifyOwnership | backEnd/app/services/base_service.py:53-76 | passes iff the item's user_id equals the caller's id; ValueError for an item without user_id; Forbidden otherwise |
| BaseService.VerifyModeratorOrOwner | backEnd/app/services/base_service.py:78-107 | passes iff the caller owns the item or is a moderator or admin; ValueError without user_id; Forbidden otherwise |
| BaseService.VerifyModerator | backEnd/app/services/base_service.py:109-120 | passes iff the role is "moderator" or "admin"; Forbidden otherwise |
| BaseService.ModeratorRoles | backEnd/app/services/base_service.py:119-120 | of the three roles only "user" is refused |
| BaseService.OrphanedItem | backEnd/app/services/base_service.py:101-102 | an item with NULL user_id fails ownership for everyone, and only moderators and admins pass the weaker check |
| BaseService.OwnerPassesBoth | backEnd/app/services/base_service.py:73-107 | the owner passes both checks whatever their role |
| PostService.Missing | backEnd/app/services/post_service.py:47 | the ids listed and not found, and no other id |
| PostService.MissingInOrder | backEnd/app/services/post_service.py:47 | the list keeps request order and repeats: one more listed id is appended exactly when no row has it |
| PostService.TopicCheckMeaning | backEnd/app/services/post_service.py:44-48 | the count check passes iff every listed topic exists and no id is listed twice |
| PostService.MissingMeaning | backEnd/app/services/post_service.py:47-48 | the ids the error lists are exactly the listed ids with no topic |
| PostService.DuplicateIdsReportNothingMissing | backEnd/app/services/post_service.py:44-48 | listing an existing topic twice fails the check with an empty list of missing ids |
| PostService.Offending | backEnd/app/services/post_service.py:41-48 | the list the BadRequest promises: the listed ids that do not exist together with those listed twice |
| PostService.OffendingMeaning | backEnd/app/services/post_service.py:44-48 | that list is empty exactly when the topic check passes |
| PostService.RepeatedIdGoesUnnamed | backEnd/app/services/post_service.py:44-48 | an existing topic listed twice is refused with an empty list, though the documented list names it |
| PostService.PostService.CreatePost | backEnd/app/services/post_service.py:29-80 | BadRequest with nothing changed when the topics do not check out; then ValidationError with nothing changed for an invalid payload; otherwise the caller's post with the given title and content is appended and linked to exactly the listed topics |
| PostService.PostService.ReplaceTopics | backEnd/app/services/post_service.py:104-113 | the check comes before any change; on success the post's links are exactly the new ids and other posts' links are untouched |
| PostService.PostService.UpdatePost | backEnd/app/services/post_service.py:82-125 | NotFound and Forbidden (owner only) before any change; BadRequest from the topic check changes nothing; a topic list of the wrong length fails with ValueError after the post's old links were removed, leaving it none; a field validation failure after a topic list leaves the links replaced; on success only the given title and content change, only on that post, and with new topic ids the post's links become exactly those |
| PostService.PostService.DeletePost | backEnd/app/services/post_service.py:127-145 | NotFound, then allowed iff owner or moderator/admin; success only sets is_deleted on that post |
| PostService.PostService.GetPostDetail | backEnd/app/services/post_service.py:147-165 | the post, deleted or not, or NotFound iff there is none |
| PostService.PostService.WithVotes | backEnd/app/services/post_service.py:196-209 | one item per post of the page, in order; for a signed-in caller and a non-empty page each post carries the caller's stored vote or None, otherwise None |
| PostService.PostService.GetFeed | backEnd/app/services/post_service.py:167-209 | the repository's page in order; for a signed-in caller and a non-empty page each post carries the caller's stored vote or None, otherwise None |
| PostService.PostService.SearchPosts | backEnd/app/services/post_service.py:211-233 | exactly page (skip, limit) of the non-deleted matching posts, title matches first |
| PostService.PostService.IncrementViewCount | backEnd/app/services/post_service.py:235-242 | that post's view_count goes up by one |
| Ordering.Joined | backEnd/app/repos/post.py:43 | the rows of a join, each row once per matching partner: exactly the rows with at least one partner remain; a sorted input stays sorted (`Ordering.JoinedSorted`), and rows with one partner each are left as they are (`Ordering.JoinedOnce`) |
| Ordering.Deduplicated | backEnd/app/repos/post.py:73 | `.unique()`: the same members, each once, no more rows than before; a sorted input stays sorted (`Ordering.DeduplicatedSorted`) and a list without repeats is left as it is (`Ordering.DeduplicatedDistinct`) |
| Ordering.LookAheadPage | backEnd/app/api/v1/endpoints/post.py:69-78 | cutting the page of limit+1 rows back to limit gives the page of limit rows, and the longer page has more than limit rows iff rows remain after the page |
| PostEndpoints.CheckPage | backEnd/app/api/v1/endpoints/post.py:47-48 | passes iff 1 <= limit <= 100 and offset >= 0 |
| PostEndpoints.FeedTopics | backEnd/app/api/v1/endpoints/post.py:67 | a topic filter of that one id iff a non-zero topic id is given |
| PostEndpoints.SingleTopicFeed | backEnd/app/api/v1/endpoints/post.py:67-74 | the feed endpoint passes at most one topic id, so the repository's page is exactly page (skip, limit) of the feed |
| PostEndpoints.CutBack | backEnd/app/api/v1/endpoints/post.py:69-78 | cutting the look-ahead fetch back to limit items gives page (skip, limit) with the caller's votes, and the fetch was longer iff the rows go on after the page |
| PostEndpoints.GetPosts | backEnd/app/api/v1/endpoints/post.py:40-87 | the response is exactly page (offset, limit) of the feed, with the caller's votes; total is the number of posts on it; has_more iff the feed continues past it |
| PostEndpoints.SearchPosts | backEnd/app/api/v1/endpoints/post.py:159-202 | queries shorter than 3 characters are refused; otherwise exactly page (offset, limit) of the matches; total equals the number shown; has_more iff more matches follow |
| PostEndpoints.ViewRule | backEnd/app/api/v1/endpoints/post.py:231-236 | a view is not counted iff the viewer is signed in and is the author; anonymous views and views of authorless posts are counted |
| PostEndpoints.CountsViewDocumented | backEnd/app/api/v1/endpoints/post.py:223-225 | the docstring's view rule: only a signed-in viewer who is not the author is counted, so every view it counts the code counts too |
| PostEndpoints.ViewRuleAgainstDocumented | backEnd/app/api/v1/endpoints/post.py:223-225 | the code's rule and the docstring's rule (anonymous views not counted) differ exactly on anonymous views |
| PostEndpoints.GetPost | backEnd/app/api/v1/endpoints/post.py:205-238 | NotFound and no change for a missing post; otherwise the post is returned and its view_count goes up by one iff the view counts |
| PostEndpoints.ReportDecisionDocumented | backEnd/app/api/v1/endpoints/post.py:374-386 | the decision the endpoint documents: NotFound("Post") for a missing post, otherwise the service's decision |
| PostEndpoints.ReportDecisionAgainstDocumented | backEnd/app/api/v1/endpoints/post.py:374-442 | the code's decision and the documented one differ exactly when no post has the id |
| PostEndpoints.ReportPost | backEnd/app/api/v1/endpoints/post.py:388-442 | a valid body always files a report on the path's post, whatever target the body names, created now, and returns its id; the body's validation can no longer fail downstream; a refusal changes neither the reports nor the duplicate cache, and an accepted report sets the duplicate key for 86400 s when the cache works |
| TopicService.LinkCounts | backEnd/app/services/topic_service.py:49-55 | linking a post to a topic adds one to that topic's count and to no other |
| TopicService.CountIsPosts | backEnd/app/models/junctions/post_topic.py:12 | with unique (post, topic) links, a topic's link count is its number of linked posts |
| TopicService.PairsByFirst | backEnd/app/models/junctions/post_topic.py:12 | links of one topic are as many as their distinct post ids |
| TopicService.TopicService.GetAllWithCounts | backEnd/app/services/topic_service.py:35-76 | one record per topic (active ones only when asked), ordered by name, each counting the posts linked to it, deleted posts included |
| TopicService.TopicService.GetById | backEnd/app/services/topic_service.py:78-91 | the topic, or NotFound naming "Topic" iff there is none |
| TopicService.TopicService.GetBySlug | backEnd/app/services/topic_service.py:93-103 | the topic with that slug, or None (not an error) iff none |
| TopicEndpoints.Respond | backEnd/app/api/v1/endpoints/topic.py:74-82 | every response field is copied from the service record |
| TopicEndpoints.CreateTopic | backEnd/app/api/v1/endpoints/topic.py:23-51 | Forbidden for everyone but an admin, moderators included, before any lookup; Conflict with nothing inserted if the name or slug is taken; otherwise the new active topic is stored and returned with post_count 0, after which the name and slug are taken, so the same request again is a conflict |
| TopicEndpoints.RespondAll | backEnd/app/api/v1/endpoints/topic.py:70-83 | the loop appends one response per record, in order |
| TopicEndpoints.GetTopics | backEnd/app/api/v1/endpoints/topic.py:60-85 | one response per service record, in the service's order |

## Where the documentation and the code disagree

The model follows the code in each case. Where the documentation states a
rule, the model states it too, as a second definition, and proves where the
two part:

- **Cache hits never reject a report.** The conflict raised on a cache hit
  (`report_service.py:60`) is swallowed by the surrounding `except Exception`.
  Only the database check rejects (`ReportService.ReportService.CreateReport`).
  The documented rule is `ReportService.AdmitDocumented`;
  `ReportService.AdmitAgainstDocumented` shows the two differ on every hit.
- **A re-report after 24 hours still fails.** The documented rule is "once per
  24 hours". But (reporter, type, id) is unique outright (`models/report.py:27-32`),
  so a valid re-report after the window fails at the insert with an integrity
  error (`ReportService.ReReportAfterWindowFails`), where
  `ReportService.AdmitDocumented` admits it (`ReportService.AdmitAgainstDocumented`).
- **The view-count rule counts anonymous views.** The `get_post` docstring says
  an unauthenticated view is not counted (`PostEndpoints.CountsViewDocumented`).
  The code counts every view except the author's own, and counts every view of
  a post whose author is gone (`PostEndpoints.ViewRule`). They differ exactly on
  anonymous views (`PostEndpoints.ViewRuleAgainstDocumented`).
- **A duplicated topic id gets an empty error list.** Such a request fails the
  topic count check, but the BadRequest lists no missing ids
  (`PostService.DuplicateIdsReportNothingMissing`). A list that names every
  reason for the refusal is `PostService.Offending`, empty exactly when the
  check passes (`PostService.OffendingMeaning`); the repeated id is on it and
  not on the code's list (`PostService.RepeatedIdGoesUnnamed`).
- **Reports do not check that the post exists.** `report_post` lists a 404
  response (`post.py:380`) but never looks the post up, so a report on a missing
  post id is filed. The documented decision is
  `PostEndpoints.ReportDecisionDocumented`; the two differ exactly on a missing
  post (`PostEndpoints.ReportDecisionAgainstDocumented`).
- **The vote change and the count write are separate commits.** In the code
  they are not atomic. The model runs them as one sequential step.

## Left out

- Posts.FeedSort: the repository falls back to created_at descending for a sort string other than "hot", "new" and "top" (`repos/post.py:50-61`); the endpoint's `Literal` type lets only those three through, so the model has just the three orders.
- The "hot" feed score: it uses floating-point `power` and the database clock. It is a parameter `score: Post -> real` and the proofs assume nothing about it.
- Rate limiting in the post endpoints: it calls an external limiter that is not part of this model.
- The Redis client. The cache is a key-to-expiry map with two flags, "absent" and "failing on every command". Eviction and partial failures are not modelled.
- Transactions, commits, `db.refresh` and concurrent requests: every step is sequential and takes effect at once.
- main.py startup and seeders.py: locks, sleeps and database I/O.
- BaseRepository (get_by_id, create_one, update_by_id, get_all_by_ids) is not part of this model. Its methods are modelled from the calls made to them:
  - a lookup by primary key;
  - an insert with the next id and the column defaults;
  - an update of the given fields;
  - a WHERE id IN selection.
- The dynamic schemas built with `create_model`. They are modelled as a second validation of the payload, with the original schema's rules.
- SQL `ILIKE`: matching is an ASCII case-insensitive substring test, and `%` and `_` in a query are taken literally.
- Python regex details: `\d` is ASCII digits only, and `$` does not accept a trailing newline.
- Whether `validate_details_for_other` runs when details are omitted depends on the unseen BaseSchema configuration. The validator is applied to the supplied value (None for an omitted field).
- The authentication dependency: the caller's id and role are parameters. The request body and query validation of FastAPI is a single ValidationError, whichever field failed.
- Foreign keys and cascades: links and reports can refer to ids with no row.
- Ties in ORDER BY: the model breaks them by table order (a stable sort). SQL leaves that order unspecified.
- The vote request schema of the vote endpoints is not part of this model. Any integer reaches the vote service, and a value outside {-1, 0, 1} is refused at the upsert.
- Endpoints that only pass through to a service (create, update, delete and vote on a post) are covered by the service members. Their response serialisation is not modelled.
- PostEndpoints.GetPost: returns the row as read before the increment. Whether the serialised response shows the new view count depends on session expiry, which is not modelled.
- Topics.TopicRepo.GetAll: ORDER BY name sorts by the database's collation; the model compares names by Unicode code point, which agrees with it on ASCII under the C collation only.
- TopicService.TopicService.GetAllWithCounts: ordered by name in the same code-point order as Topics.TopicRepo.GetAll, not by the database's collation.
- PostEndpoints.GetPosts: assumes `post.to_dict(exclude_keys=...)` (`post.py:82`) copies every column and the `user_vote` attribute the service set into the response; `to_dict` is defined in the model base class, which is not part of this model.
- ReportService.ReportService.ResolveReport: the service runs its own UPDATE ... RETURNING (`report_service.py:143-157`), not the repository's resolve_report. Its body calls Reports.ReportRepo.ResolveReport because that method has the same effect on the table, as their contracts state.
