// Queries over the tag table. Each tag belongs to a user and is either
// global (no group) or scoped to one group.
module TagRepository {
  import opened Wrappers
  import opened Ids
  import opened Tags
  import Strings
  import Sorting
  import SingleResult
  import NoteTagRepository

  type TagTable = map<TagId, Tag>

  predicate OwnedBy(tags: TagTable, user: UserId, id: TagId)
  {
    id in tags && tags[id].owner == Some(user)
  }

  /** findByUserOrderByNameAsc, as a set. */
  function UserTags(tags: TagTable, user: UserId): set<TagId>
  {
    set id | id in tags && OwnedBy(tags, user, id)
  }

  /** existsByUserAndNameIgnoreCase. */
  predicate ExistsIgnoreCase(tags: TagTable, user: UserId, name: string)
  {
    exists id :: id in tags && OwnedBy(tags, user, id) && NameMatchesIgnoreCase(tags[id], name)
  }

  /** The user's tag id carries the name, in any case. */
  predicate NamedIgnoreCase(tags: TagTable, user: UserId, name: string, id: TagId)
  {
    OwnedBy(tags, user, id) && NameMatchesIgnoreCase(tags[id], name)
  }

  /**
   * findByUserAndNameIgnoreCase: the user's one tag of that name in any case;
   * several such tags make the finder throw.
   */
  function FindIgnoreCase(tags: TagTable, user: UserId, name: string): (r: Result<Option<TagId>>)
    ensures r == Ok(None) <==> !ExistsIgnoreCase(tags, user, name)
    ensures r.Ok? && r.value.Some? ==> forall id :: NamedIgnoreCase(tags, user, name, id) <==> id == r.value.value
    ensures r.Err? <==> exists a, b :: NamedIgnoreCase(tags, user, name, a) && NamedIgnoreCase(tags, user, name, b) && a != b
    ensures r.Err? ==> r.error == IncorrectResultSize
  {
    var matches := set id | id in tags && NamedIgnoreCase(tags, user, name, id);
    assert forall id :: NamedIgnoreCase(tags, user, name, id) <==> id in matches;
    assert ExistsIgnoreCase(tags, user, name) ==> matches != {} by {
      if ExistsIgnoreCase(tags, user, name) {
        var id :| id in tags && OwnedBy(tags, user, id) && NameMatchesIgnoreCase(tags[id], name);
        assert id in matches;
      }
    }
    SingleResult.Unique(matches)
  }

  /** findByUserAndGroupIsNullOrderByNameAsc. */
  function GlobalTags(tags: TagTable, user: UserId): set<TagId>
  {
    set id | id in tags && OwnedBy(tags, user, id) && tags[id].group.None?
  }

  /** findByUserAndGroupOrderByNameAsc: tags scoped to exactly this group. */
  function GroupTags(tags: TagTable, user: UserId, g: GroupId): set<TagId>
  {
    set id | id in tags && OwnedBy(tags, user, id) && tags[id].group == Some(g)
  }

  /**
   * The clause (t.group = :group OR t.group IS NULL): a tag is in scope when
   * it is global or scoped to g. A null g compares unequal to every group,
   * so then only the global tags are in scope.
   */
  predicate InGroupOrGlobal(t: Tag, g: Option<GroupId>)
  {
    (g.Some? && t.group == g) || t.group.None?
  }

  /** findByUserAndGroupOrGlobalOrderByNameAsc. */
  function GroupOrGlobalTags(tags: TagTable, user: UserId, g: GroupId): (r: set<TagId>)
    ensures r == GroupTags(tags, user, g) + GlobalTags(tags, user)
  {
    set id | id in tags && OwnedBy(tags, user, id) && InGroupOrGlobal(tags[id], Some(g))
  }

  /** findTagsAvailableForGroupHierarchy: global tags and tags of any listed group. */
  function AvailableForHierarchy(tags: TagTable, user: UserId, hierarchy: seq<GroupId>): set<TagId>
  {
    set id | id in tags && OwnedBy(tags, user, id) && (tags[id].group.None? || tags[id].group.value in hierarchy)
  }

  lemma AvailableForHierarchyIff(tags: TagTable, user: UserId, hierarchy: seq<GroupId>, id: TagId)
    ensures id in AvailableForHierarchy(tags, user, hierarchy) <==>
      id in GlobalTags(tags, user) || exists i :: 0 <= i < |hierarchy| && id in GroupTags(tags, user, hierarchy[i])
  {
    if id in AvailableForHierarchy(tags, user, hierarchy) && tags[id].group.Some? {
      var i :| 0 <= i < |hierarchy| && hierarchy[i] == tags[id].group.value;
      assert id in GroupTags(tags, user, hierarchy[i]);
    }
  }

  /** existsByUserAndNameInGroupOrGlobal: exact name equality. */
  predicate ExistsInGroupOrGlobal(tags: TagTable, user: UserId, name: string, g: Option<GroupId>)
  {
    exists id :: id in tags && OwnedBy(tags, user, id) && tags[id].name == name && InGroupOrGlobal(tags[id], g)
  }

  /** existsByUserAndNameIgnoreCaseInGroupOrGlobal. */
  predicate ExistsIgnoreCaseInGroupOrGlobal(tags: TagTable, user: UserId, name: string, g: Option<GroupId>)
  {
    exists id :: id in tags && OwnedBy(tags, user, id) && NameMatchesIgnoreCase(tags[id], name) && InGroupOrGlobal(tags[id], g)
  }

  /** The case-insensitive scoped check is implied by the exact one, and implies the user-wide one. */
  lemma ScopedChecksNest(tags: TagTable, user: UserId, name: string, g: Option<GroupId>)
    ensures ExistsInGroupOrGlobal(tags, user, name, g) ==> ExistsIgnoreCaseInGroupOrGlobal(tags, user, name, g)
    ensures ExistsIgnoreCaseInGroupOrGlobal(tags, user, name, g) ==> ExistsIgnoreCase(tags, user, name)
  {
    if ExistsInGroupOrGlobal(tags, user, name, g) {
      var id :| id in tags && OwnedBy(tags, user, id) && tags[id].name == name && InGroupOrGlobal(tags[id], g);
      assert NameMatchesIgnoreCase(tags[id], name);
    }
  }

  /** With no group the scoped check covers only the global tags. */
  lemma NullScopeIsGlobal(tags: TagTable, user: UserId, name: string)
    ensures ExistsIgnoreCaseInGroupOrGlobal(tags, user, name, None) <==>
      exists id :: id in GlobalTags(tags, user) && NameMatchesIgnoreCase(tags[id], name)
  {
    if ExistsIgnoreCaseInGroupOrGlobal(tags, user, name, None) {
      var id :| id in tags && OwnedBy(tags, user, id) && NameMatchesIgnoreCase(tags[id], name) && InGroupOrGlobal(tags[id], None);
      assert id in GlobalTags(tags, user);
    }
  }

  /** The user's tag id carries the name, in any case, and is in scope g or global. */
  predicate NamedInScope(tags: TagTable, user: UserId, name: string, g: Option<GroupId>, id: TagId)
  {
    NamedIgnoreCase(tags, user, name, id) && InGroupOrGlobal(tags[id], g)
  }

  /**
   * findByUserAndNameIgnoreCaseInGroupOrGlobal: the user's one tag of that
   * name in scope g or global; several such tags make the finder throw.
   */
  function FindIgnoreCaseInGroupOrGlobal(tags: TagTable, user: UserId, name: string, g: Option<GroupId>): (r: Result<Option<TagId>>)
    ensures r == Ok(None) <==> !ExistsIgnoreCaseInGroupOrGlobal(tags, user, name, g)
    ensures r.Ok? && r.value.Some? ==> forall id :: NamedInScope(tags, user, name, g, id) <==> id == r.value.value
    ensures r.Err? <==> exists a, b :: NamedInScope(tags, user, name, g, a) && NamedInScope(tags, user, name, g, b) && a != b
    ensures r.Err? ==> r.error == IncorrectResultSize
  {
    var matches := set id | id in tags && NamedInScope(tags, user, name, g, id);
    assert forall id :: NamedInScope(tags, user, name, g, id) <==> id in matches;
    assert ExistsIgnoreCaseInGroupOrGlobal(tags, user, name, g) ==> matches != {} by {
      if ExistsIgnoreCaseInGroupOrGlobal(tags, user, name, g) {
        var id :| id in tags && OwnedBy(tags, user, id) && NameMatchesIgnoreCase(tags[id], name) && InGroupOrGlobal(tags[id], g);
        assert id in matches;
      }
    }
    SingleResult.Unique(matches)
  }

  /** The number of join rows naming the tag (SIZE(t.noteTags), COUNT(nt)). */
  function Usage(rows: seq<NoteTag>, id: TagId): nat
  {
    NoteTagRepository.CountByTag(rows, id)
  }

  /** findUnusedTagsByUser. */
  function UnusedTags(tags: TagTable, rows: seq<NoteTag>, user: UserId): set<TagId>
  {
    set id | id in tags && OwnedBy(tags, user, id) && Usage(rows, id) == 0
  }

  lemma UnusedMeansNoRows(tags: TagTable, rows: seq<NoteTag>, user: UserId, id: TagId)
    ensures id in UnusedTags(tags, rows, user) <==> OwnedBy(tags, user, id) && forall x :: x in rows ==> x.tag != id
  {
    NoteTagRepository.CountsZero(rows, 0, id);
  }

  /** findTagsWithMinUsageByUser. */
  function TagsWithMinUsage(tags: TagTable, rows: seq<NoteTag>, user: UserId, minUsage: int): set<TagId>
  {
    set id | id in tags && OwnedBy(tags, user, id) && Usage(rows, id) >= minUsage
  }

  /** A minimum of zero or less is no filter; a minimum of one is the complement of the unused tags. */
  lemma MinUsageEdges(tags: TagTable, rows: seq<NoteTag>, user: UserId, minUsage: int)
    ensures minUsage <= 0 ==> TagsWithMinUsage(tags, rows, user, minUsage) == UserTags(tags, user)
    ensures TagsWithMinUsage(tags, rows, user, 1) == UserTags(tags, user) - UnusedTags(tags, rows, user)
  {
  }

  /** findUnusedTagsByUserAndGroup: only tags scoped exactly to g. */
  function UnusedInGroup(tags: TagTable, rows: seq<NoteTag>, user: UserId, g: GroupId): (r: set<TagId>)
    ensures r == GroupTags(tags, user, g) * UnusedTags(tags, rows, user)
  {
    set id | id in tags && OwnedBy(tags, user, id) && tags[id].group == Some(g) && Usage(rows, id) == 0
  }

  /** findUnusedGlobalTagsByUser. */
  function UnusedGlobal(tags: TagTable, rows: seq<NoteTag>, user: UserId): (r: set<TagId>)
    ensures r == GlobalTags(tags, user) * UnusedTags(tags, rows, user)
  {
    set id | id in tags && OwnedBy(tags, user, id) && tags[id].group.None? && Usage(rows, id) == 0
  }

  /** findTagsWithUsageCountByUser: every tag of the user, most used first. */
  function Popular(tags: TagTable, rows: seq<NoteTag>, user: UserId): seq<TagId>
  {
    Sorting.SortDesc(Sorting.Ascending(UserTags(tags, user)), (id: TagId) => Usage(rows, id))
  }

  /** findTagsWithUsageCountByUserAndGroup: tags scoped to g or global, most used first. */
  function PopularInGroup(tags: TagTable, rows: seq<NoteTag>, user: UserId, g: GroupId): seq<TagId>
  {
    Sorting.SortDesc(Sorting.Ascending(GroupOrGlobalTags(tags, user, g)), (id: TagId) => Usage(rows, id))
  }

  /** The popularity lists hold each tag of their scope once, unused ones included, by falling usage. */
  lemma PopularSpec(tags: TagTable, rows: seq<NoteTag>, user: UserId, g: GroupId)
    ensures forall id :: id in Popular(tags, rows, user) <==> id in UserTags(tags, user)
    ensures |Popular(tags, rows, user)| == |UserTags(tags, user)|
    ensures Sorting.SortedDesc(Popular(tags, rows, user), (id: TagId) => Usage(rows, id))
    ensures forall id :: id in PopularInGroup(tags, rows, user, g) <==> id in GroupOrGlobalTags(tags, user, g)
    ensures Sorting.SortedDesc(PopularInGroup(tags, rows, user, g), (id: TagId) => Usage(rows, id))
  {
    var asc := Sorting.Ascending(UserTags(tags, user));
    assert multiset(Popular(tags, rows, user)) == multiset(asc);
    assert forall id :: id in Popular(tags, rows, user) <==> id in multiset(asc);
    var asc2 := Sorting.Ascending(GroupOrGlobalTags(tags, user, g));
    assert multiset(PopularInGroup(tags, rows, user, g)) == multiset(asc2);
    assert forall id :: id in PopularInGroup(tags, rows, user, g) <==> id in multiset(asc2);
  }

  /** findByNoteId: the distinct tags a note carries. */
  function TagsOfNote(rows: seq<NoteTag>, note: NoteId): (r: set<TagId>)
    ensures forall t :: t in r <==> NoteTagRepository.Exists(rows, note, t)
  {
    set x | x in rows && x.note == note :: x.tag
  }
}
