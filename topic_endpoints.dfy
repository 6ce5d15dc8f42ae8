/**
 * The topic endpoints: creating a topic, which only an admin may do and
 * which refuses a name or slug already in use, and listing the topics with
 * their post counts.
 */
module TopicEndpoints {
  import opened Wrappers
  import opened Topics
  import UserSchemas
  import TopicService

  /** The Field bounds of TopicCreate: FieldSizes.TOPIC_NAME and FieldSizes.TOPIC_SLUG. */
  const MaxTopicNameLength := 100
  const MaxTopicSlugLength := 100

  /** TopicCreate: a name and a slug of 1..100 characters each. */
  predicate ValidTopicCreate(name: string, slug: string) {
    1 <= |name| <= MaxTopicNameLength && 1 <= |slug| <= MaxTopicSlugLength
  }

  /** TopicDetailedResponse. */
  datatype TopicResponse = TopicResponse(
    id: int, name: string, slug: string, description: Option<string>,
    isActive: bool, postCount: int, createdAt: int)

  /** The response built from a service record: every field copied. */
  function Respond(x: TopicService.TopicWithCount): (r: TopicResponse)
    ensures r.id == x.topic.id && r.name == x.topic.name && r.slug == x.topic.slug
    ensures r.description == x.topic.description && r.isActive == x.topic.isActive
    ensures r.createdAt == x.topic.createdAt && r.postCount == x.postCount
  {
    TopicResponse(x.topic.id, x.topic.name, x.topic.slug, x.topic.description,
                  x.topic.isActive, x.postCount, x.topic.createdAt)
  }

  /**
   * create_topic: the body is validated; then anyone but an admin, moderators
   * included, is refused before any lookup; a topic sharing the name or the
   * slug is a conflict; otherwise the new active topic is stored and returned
   * with a post count of 0.
   */
  method CreateTopic(repo: TopicRepo, role: UserSchemas.UserRole, name: string, slug: string,
                     description: Option<string>, now: int) returns (r: Result<TopicResponse>)
    requires repo.Valid()
    modifies repo
    ensures repo.Valid()
    ensures !ValidTopicCreate(name, slug) ==>
      r.Err? && r.error.ValidationError? && repo.topics == old(repo.topics)
    ensures ValidTopicCreate(name, slug) && role != UserSchemas.Admin ==>
      r == Err(Forbidden) && repo.topics == old(repo.topics)
    ensures ValidTopicCreate(name, slug) && role == UserSchemas.Admin && old(repo.GetByNameOrSlug(name, slug)).Some? ==>
      && r == Err(Conflict("Topic with the same name or slug already exists."))
      && repo.topics == old(repo.topics)
    ensures ValidTopicCreate(name, slug) && role == UserSchemas.Admin && old(repo.GetByNameOrSlug(name, slug)).None? ==>
      && r == Ok(TopicResponse(old(repo.nextId), name, slug, description, true, 0, now))
      && repo.topics == old(repo.topics) + [Topic(old(repo.nextId), name, slug, description, true, now)]
    // once created, the name and slug are taken: the same request again is a conflict
    ensures r.Ok? ==> repo.GetByNameOrSlug(name, slug).Some?
  {
    if !ValidTopicCreate(name, slug) {
      return Err(ValidationError("TopicCreate"));
    }
    if role != UserSchemas.Admin {
      return Err(Forbidden);
    }
    var existing := repo.GetByNameOrSlug(name, slug);
    if existing.Some? {
      return Err(Conflict("Topic with the same name or slug already exists."));
    }
    var created := repo.CreateOne(name, slug, description, now);
    var t := created.value;
    r := Ok(TopicResponse(t.id, t.name, t.slug, t.description, t.isActive, 0, t.createdAt));
    assert repo.topics[|repo.topics| - 1] == t;
  }

  /** The list get_topics builds: the records' responses appended one by one. */
  method RespondAll(records: seq<TopicService.TopicWithCount>) returns (responses: seq<TopicResponse>)
    ensures |responses| == |records|
    ensures forall i :: 0 <= i < |records| ==> responses[i] == Respond(records[i])
  {
    responses := [];
    var i := 0;
    while i < |records|
      invariant 0 <= i <= |records|
      invariant |responses| == i
      invariant forall k :: 0 <= k < i ==> responses[k] == Respond(records[k])
    {
      var x := records[i];
      responses := responses + [TopicResponse(x.topic.id, x.topic.name, x.topic.slug, x.topic.description,
                                              x.topic.isActive, x.postCount, x.topic.createdAt)];
      i := i + 1;
    }
  }

  /** get_topics: one response per service record, in the service's order. */
  method GetTopics(service: TopicService.TopicService, onlyActive: bool) returns (responses: seq<TopicResponse>)
    requires service.topics.Valid()
    ensures var records := service.GetAllWithCounts(onlyActive);
      && |responses| == |records|
      && forall i :: 0 <= i < |records| ==> responses[i] == Respond(records[i])
  {
    responses := RespondAll(service.GetAllWithCounts(onlyActive));
  }
}
