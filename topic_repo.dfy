/**
 * The topic table and the read-only queries of the topic repository. Names
 * and slugs are unique; a new topic is active.
 */
module Topics {
  import opened Wrappers
  import opened Ordering

  datatype Topic = Topic(
    id: int,
    name: string,
    slug: string,
    description: Option<string>,
    isActive: bool,
    createdAt: int)

  /** ORDER BY name. */
  predicate ByName(a: Topic, b: Topic) { StrLe(a.name, b.name) }

  lemma {:induction false} ByNameTotal()
    ensures TotalPreorder(ByName)
  {
    forall a: Topic, b: Topic ensures ByName(a, b) || ByName(b, a) {
      StrLeTotal(a.name, b.name);
    }
    forall a: Topic, b: Topic, c: Topic | ByName(a, b) && ByName(b, c) ensures ByName(a, c) {
      StrLeTrans(a.name, b.name, c.name);
    }
  }

  /** The first row satisfying `p`, in table order. */
  function First(ts: seq<Topic>, p: Topic -> bool): (r: Option<Topic>)
    ensures r.Some? ==> r.value in ts && p(r.value)
    ensures r.None? <==> forall t :: t in ts ==> !p(t)
  {
    if ts == [] then None
    else if p(ts[0]) then Some(ts[0])
    else
      assert forall t :: t in ts && t != ts[0] ==> t in ts[1..];
      First(ts[1..], p)
  }

  function TopicId(t: Topic): int { t.id }

  /** WHERE id IN ids. */
  function ListedIn(ids: seq<int>): Topic -> bool {
    (t: Topic) => t.id in ids
  }

  ghost predicate Unique(ts: seq<Topic>) {
    forall i, j :: 0 <= i < j < |ts| ==>
      ts[i].id != ts[j].id && ts[i].name != ts[j].name && ts[i].slug != ts[j].slug
  }

  /** The primary key makes the selected rows as many as their distinct ids. */
  lemma CountListed(ts: seq<Topic>, ids: seq<int>)
    requires Unique(ts)
    ensures |Filter(ts, ListedIn(ids))| == |set t | t in ts && t.id in ids :: t.id|
  {
    assert KeysDistinct(ts, TopicId);
    FilterCount(ts, ListedIn(ids), TopicId);
    assert KeysOf(ts, ListedIn(ids), TopicId) == set t | t in ts && t.id in ids :: t.id;
  }

  /** WHERE is_active, when only active topics are asked for. */
  function Shown(onlyActive: bool): Topic -> bool {
    (t: Topic) => onlyActive ==> t.isActive
  }

  /** The primary key makes the listed topics as many as their ids. */
  lemma CountShown(ts: seq<Topic>, onlyActive: bool)
    requires Unique(ts)
    ensures |Filter(ts, Shown(onlyActive))| == |set t | t in ts && (onlyActive ==> t.isActive) :: t.id|
  {
    assert KeysDistinct(ts, TopicId);
    FilterCount(ts, Shown(onlyActive), TopicId);
    assert KeysOf(ts, Shown(onlyActive), TopicId) == set t | t in ts && (onlyActive ==> t.isActive) :: t.id;
  }

  class TopicRepo {
    var topics: seq<Topic>
    var nextId: int

    ghost predicate Valid()
      reads this
    {
      Unique(topics) && forall t :: t in topics ==> t.id < nextId
    }

    constructor ()
      ensures Valid() && topics == []
    {
      topics, nextId := [], 1;
    }

    /** get_by_id. */
    function Get(id: int): (r: Option<Topic>)
      reads this
      ensures r.Some? ==> r.value in topics && r.value.id == id
      ensures r.None? <==> forall t :: t in topics ==> t.id != id
    {
      First(topics, (t: Topic) => t.id == id)
    }

    /** get_all: the topics, only the active ones when asked, ordered by name, each once. */
    function GetAll(onlyActive: bool): (r: seq<Topic>)
      reads this
      requires Valid()
      ensures forall t :: t in r <==> t in topics && (onlyActive ==> t.isActive)
      ensures SortedBy(r, ByName)
      ensures |r| == |set t | t in topics && (onlyActive ==> t.isActive) :: t.id|
    {
      var kept := Filter(topics, Shown(onlyActive));
      CountShown(topics, onlyActive);
      ByNameTotal();
      SortBySorted(kept, ByName);
      SortByMembers(kept, ByName);
      SortBy(kept, ByName)
    }

    /** get_by_slug: the topic with exactly that slug, or None. */
    function GetBySlug(slug: string): (r: Option<Topic>)
      reads this
      requires Valid()
      ensures r.None? <==> forall t :: t in topics ==> t.slug != slug
      ensures r.Some? ==> r.value in topics && r.value.slug == slug
      ensures r.Some? ==> forall t :: t in topics && t.slug == slug ==> t == r.value
    {
      First(topics, (t: Topic) => t.slug == slug)
    }

    /** get_by_name: the topic with exactly that name, or None. */
    function GetByName(name: string): (r: Option<Topic>)
      reads this
      requires Valid()
      ensures r.None? <==> forall t :: t in topics ==> t.name != name
      ensures r.Some? ==> r.value in topics && r.value.name == name
      ensures r.Some? ==> forall t :: t in topics && t.name == name ==> t == r.value
    {
      First(topics, (t: Topic) => t.name == name)
    }

    /** get_by_name_or_slug: the first topic matching the name or the slug, or None when none does. */
    function GetByNameOrSlug(name: string, slug: string): (r: Option<Topic>)
      reads this
      ensures r.None? <==> forall t :: t in topics ==> t.name != name && t.slug != slug
      ensures r.Some? ==> r.value in topics && (r.value.name == name || r.value.slug == slug)
    {
      First(topics, (t: Topic) => t.name == name || t.slug == slug)
    }

    /**
     * get_all_by_ids: the rows whose id is listed, each once, in table order;
     * as many as there are distinct listed ids that exist.
     */
    function GetAllByIds(ids: seq<int>): (r: seq<Topic>)
      reads this
      requires Valid()
      ensures forall t :: t in r <==> t in topics && t.id in ids
      ensures |r| == |set t | t in topics && t.id in ids :: t.id|
    {
      CountListed(topics, ids);
      Filter(topics, ListedIn(ids))
    }

    /** create_one: an active topic with the next id; the unique constraints refuse a taken name or slug. */
    method CreateOne(name: string, slug: string, description: Option<string>, now: int) returns (r: Result<Topic>)
      requires Valid()
      modifies this
      ensures Valid()
      ensures old(GetByNameOrSlug(name, slug)).Some? ==> r == Err(IntegrityError) && topics == old(topics)
      ensures old(GetByNameOrSlug(name, slug)).None? ==>
        && r == Ok(Topic(old(nextId), name, slug, description, true, now))
        && topics == old(topics) + [r.value]
    {
      if GetByNameOrSlug(name, slug).Some? {
        return Err(IntegrityError);
      }
      var t := Topic(nextId, name, slug, description, true, now);
      topics := topics + [t];
      nextId := nextId + 1;
      r := Ok(t);
    }
  }
}
