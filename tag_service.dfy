// The tag service: user-wide and group-scoped creation with their
// duplicate-name rules, find-or-create, moves between scopes and deletes.
module TagService {
  import opened Wrappers
  import opened Ids
  import opened Tags
  import opened Groups
  import opened Store
  import opened TagRepository
  import NoteTagRepository
  import GroupService

  /** Saving a new tag under a fresh id. */
  method Insert(db: Database, t: Tag) returns (id: TagId)
    requires db.Valid()
    modifies db`tags, db`nextId
    ensures db.Valid()
    ensures id == old(db.nextId) && id !in old(db.tags) && db.tags == old(db.tags)[id := t]
  {
    id := db.FreshId();
    db.tags := db.tags[id := t];
  }

  /** The tags with exactly one more entry, id, holding t: the scoped finder now finds id alone. */
  lemma AddedTagIsOnlyMatch(before: TagTable, id: TagId, t: Tag, user: UserId, name: string, g: Option<GroupId>)
    requires id !in before && !ExistsIgnoreCaseInGroupOrGlobal(before, user, name, g)
    requires t.owner == Some(user) && NameMatchesIgnoreCase(t, name) && InGroupOrGlobal(t, g)
    ensures FindIgnoreCaseInGroupOrGlobal(before[id := t], user, name, g) == Ok(Some(id))
  {
    var after := before[id := t];
    assert NamedInScope(after, user, name, g, id);
    assert forall x :: NamedInScope(after, user, name, g, x) ==> x == id;
  }

  /** The same for the user-wide finder. */
  lemma AddedTagIsOnlyUserMatch(before: TagTable, id: TagId, t: Tag, user: UserId, name: string)
    requires id !in before && !ExistsIgnoreCase(before, user, name)
    requires t.owner == Some(user) && NameMatchesIgnoreCase(t, name)
    ensures FindIgnoreCase(before[id := t], user, name) == Ok(Some(id))
  {
    var after := before[id := t];
    assert NamedIgnoreCase(after, user, name, id);
    assert forall x :: NamedIgnoreCase(after, user, name, x) ==> x == id;
  }

  /** createTag: the acting user owns the tag; a name the user has in any scope, in any case, is refused. */
  method CreateTag(db: Database, user: UserId, t: Tag) returns (r: Result<TagId>)
    requires db.Valid()
    modifies db`tags, db`nextId
    ensures db.Valid()
    ensures r.Err? <==> ExistsIgnoreCase(old(db.tags), user, t.name)
    ensures r.Err? ==> r.error.InvalidArgument? && db.tags == old(db.tags)
    ensures r.Ok? ==> r.value !in old(db.tags) && db.tags == old(db.tags)[r.value := t.(owner := Some(user))]
  {
    if ExistsIgnoreCase(db.tags, user, t.name) {
      return Err(InvalidArgument("Tag with this name already exists"));
    }
    var id := Insert(db, t.(owner := Some(user)));
    r := Ok(id);
  }

  /**
   * updateTag: an unknown id is refused, and so is a name (in any case) that
   * the user has on another tag, or on several tags, which makes the finder
   * throw; the tag is saved whole with the user as owner.
   */
  method UpdateTag(db: Database, user: UserId, id: TagId, t: Tag) returns (r: Result<TagId>)
    requires db.Valid()
    modifies db`tags
    ensures db.Valid()
    ensures id !in old(db.tags) ==> r.Err? && r.error.InvalidArgument?
    ensures r.Ok? <==> (id in old(db.tags) && FindIgnoreCase(old(db.tags), user, t.name) in {Ok(None), Ok(Some(id))})
    ensures r.Err? ==> db.tags == old(db.tags)
    ensures r.Ok? ==> r.value == id && db.tags == old(db.tags)[id := t.(owner := Some(user))]
  {
    if id !in db.tags {
      return Err(InvalidArgument("Tag not found"));
    }
    var existing := FindIgnoreCase(db.tags, user, t.name);
    if existing.Err? {
      return Err(existing.error);
    }
    if existing.value.Some? && existing.value.value != id {
      return Err(InvalidArgument("Tag with this name already exists"));
    }
    db.tags := db.tags[id := t.(owner := Some(user))];
    r := Ok(id);
  }

  /** deleteTag: the tag's join rows go first, then the tag; an unknown id is refused. */
  method DeleteTag(db: Database, id: TagId) returns (r: Result<()>)
    requires db.Valid()
    modifies db`tags, db`noteTags
    ensures db.Valid()
    ensures r.Err? <==> id !in old(db.tags)
    ensures r.Err? ==> db.tags == old(db.tags) && db.noteTags == old(db.noteTags)
    ensures r.Ok? ==> db.tags == old(db.tags) - {id} && db.noteTags == NoteTagRepository.WithoutTag(old(db.noteTags), id)
    ensures r.Ok? ==> Usage(db.noteTags, id) == 0
  {
    if id !in db.tags {
      return Err(InvalidArgument("Tag not found"));
    }
    NoteTagRepository.RowsKeepDistinct(db.noteTags, NoteTagRepository.TagIsNot(id));
    NoteTagRepository.DeletesExact(db.noteTags, 0, id);
    db.noteTags := NoteTagRepository.WithoutTag(db.noteTags, id);
    db.tags := db.tags - {id};
    r := Ok(());
  }

  /**
   * getOrCreateTag: the user's one tag of that name in any case, or a new
   * global tag; several tags of that name make the finder throw.
   */
  method GetOrCreateTag(db: Database, user: UserId, name: string, color: Option<string>) returns (r: Result<TagId>)
    requires db.Valid()
    modifies db`tags, db`nextId
    ensures db.Valid()
    ensures r.Err? <==> FindIgnoreCase(old(db.tags), user, name).Err?
    ensures r.Err? ==> r.error == IncorrectResultSize && db.tags == old(db.tags)
    ensures r.Ok? ==> FindIgnoreCase(db.tags, user, name) == Ok(Some(r.value))
    ensures ExistsIgnoreCase(old(db.tags), user, name) ==> db.tags == old(db.tags)
    ensures !ExistsIgnoreCase(old(db.tags), user, name) ==> r.Ok? && r.value !in old(db.tags)
    ensures !ExistsIgnoreCase(old(db.tags), user, name) ==> db.tags == old(db.tags)[r.value := Tag(name, color, Some(user), None, false)]
  {
    var found := FindIgnoreCase(db.tags, user, name);
    if found.Err? {
      return Err(found.error);
    }
    if found.value.Some? {
      return Ok(found.value.value);
    }
    var id := Insert(db, Tag(name, color, Some(user), None, false));
    AddedTagIsOnlyUserMatch(old(db.tags), id, Tag(name, color, Some(user), None, false), user, name);
    r := Ok(id);
  }

  /** The tags getTagsForGroup offers for a stored group: global ones and those of any group on its root path. */
  function VisibleTags(tags: TagTable, groups: GroupTable, user: UserId, g: GroupId): set<TagId>
    requires Terminates(groups, g)
  {
    AvailableForHierarchy(tags, user, Chain(groups, g).value + [g])
  }

  /**
   * getTagsForGroup: no group gives all of the user's tags, a group the user
   * does not own (unknown or another user's) the global ones, and one of the
   * user's groups the tags visible from it.
   */
  method GetTagsForGroup(db: Database, user: UserId, g: Option<GroupId>) returns (r: set<TagId>)
    requires g.Some? && GroupService.OwnedGroup(db.groups, user, g.value) ==> Terminates(db.groups, g.value)
    ensures g.None? ==> r == UserTags(db.tags, user)
    ensures g.Some? && !GroupService.OwnedGroup(db.groups, user, g.value) ==> r == GlobalTags(db.tags, user)
    ensures g.Some? && GroupService.OwnedGroup(db.groups, user, g.value) ==> r == VisibleTags(db.tags, db.groups, user, g.value)
  {
    if g.None? {
      return UserTags(db.tags, user);
    }
    if !GroupService.OwnedGroup(db.groups, user, g.value) {
      return GlobalTags(db.tags, user);
    }
    var hierarchy := GroupService.GetGroupHierarchy(db, g.value);
    r := AvailableForHierarchy(db.tags, user, hierarchy + [g.value]);
  }

  /** A tag is visible from g exactly when it is global or scoped to g or to one of g's ancestors. */
  lemma VisibleTagsIff(tags: TagTable, groups: GroupTable, user: UserId, g: GroupId, id: TagId)
    requires g in groups && Terminates(groups, g)
    ensures id in VisibleTags(tags, groups, user, g) <==>
      id in GlobalTags(tags, user) || (id in UserTags(tags, user) && tags[id].group.Some? && tags[id].group.value in Chain(groups, g).value)
  {
    ChainShape(groups, g);
    var c := Chain(groups, g).value;
    assert g in c;
    assert forall x :: x in c + [g] <==> x in c;
  }

  /** A tag scoped to a group is visible from its subgroups but is not global. */
  lemma ScopedTagVisibleBelow(tags: TagTable, groups: GroupTable, user: UserId, parent: GroupId, child: GroupId, id: TagId)
    requires child in groups && Terminates(groups, child) && groups[child].parent == Some(parent)
    requires OwnedBy(tags, user, id) && tags[id].group == Some(parent)
    ensures id in VisibleTags(tags, groups, user, child) && id !in GlobalTags(tags, user)
  {
    ChainShape(groups, child);
    var c := Chain(groups, child).value;
    assert groups[c[|c| - 1]].parent == Some(c[|c| - 2]);
    assert parent in c;
  }

  /** getGroupSpecificTags: global tags for no group, none for a group the user does not own. */
  function GroupSpecificTags(tags: TagTable, groups: GroupTable, user: UserId, g: Option<GroupId>): (r: set<TagId>)
    ensures g.None? ==> r == GlobalTags(tags, user)
    ensures g.Some? && !GroupService.OwnedGroup(groups, user, g.value) ==> r == {}
    ensures g.Some? && GroupService.OwnedGroup(groups, user, g.value) ==> forall id :: id in r <==> OwnedBy(tags, user, id) && tags[id].group == g
  {
    if g.None? then GlobalTags(tags, user)
    else if !GroupService.OwnedGroup(groups, user, g.value) then {}
    else GroupTags(tags, user, g.value)
  }

  /**
   * createTagInGroup: with a group, it must be one of the user's groups and
   * the name (in any case) must not be taken in that group or globally; with
   * no group the tag is global and the name must not be taken anywhere.
   */
  method CreateTagInGroup(db: Database, user: UserId, t: Tag, g: Option<GroupId>) returns (r: Result<TagId>)
    requires db.Valid()
    modifies db`tags, db`nextId
    ensures db.Valid()
    ensures g.Some? && !GroupService.OwnedGroup(old(db.groups), user, g.value) ==> r.Err? && r.error.InvalidArgument?
    ensures g.Some? ==> (r.Ok? <==> GroupService.OwnedGroup(old(db.groups), user, g.value) && !ExistsIgnoreCaseInGroupOrGlobal(old(db.tags), user, t.name, g))
    ensures g.None? ==> (r.Ok? <==> !ExistsIgnoreCase(old(db.tags), user, t.name))
    ensures r.Err? ==> r.error.InvalidArgument? && db.tags == old(db.tags)
    ensures r.Ok? ==> r.value !in old(db.tags) && db.tags == old(db.tags)[r.value := t.(owner := Some(user), group := g)]
  {
    if g.Some? {
      if !GroupService.OwnedGroup(db.groups, user, g.value) {
        return Err(InvalidArgument("Group not found"));
      }
      if ExistsIgnoreCaseInGroupOrGlobal(db.tags, user, t.name, g) {
        return Err(InvalidArgument("Tag with this name already exists in this group or globally"));
      }
    } else {
      if ExistsIgnoreCase(db.tags, user, t.name) {
        return Err(InvalidArgument("Global tag with this name already exists"));
      }
    }
    var id := Insert(db, t.(owner := Some(user), group := g));
    r := Ok(id);
  }

  /**
   * createGlobalTag: despite its name the tag is scoped to the group
   * getDefaultGroup yields, never to no group: the user's root group named
   * "Default", else the first root group, else a new Default group. When the
   * user has groups but no root group there is no group and the call fails
   * (its id is read from a null reference); any failure rolls back the
   * Default group created on the way.
   */
  method CreateGlobalTag(db: Database, user: UserId, t: Tag) returns (r: Result<TagId>)
    requires db.Valid()
    modifies db`tags, db`groups, db`nextId
    ensures db.Valid()
    ensures GroupService.DefaultChoice(old(db.groups), user, old(db.nextId)).Err? ==> r == Err(IncorrectResultSize)
    ensures GroupService.DefaultChoice(old(db.groups), user, old(db.nextId)) == Ok(None) ==> r.Err? && r.error.InvalidState?
    ensures (GroupService.DefaultChoice(old(db.groups), user, old(db.nextId)).Ok? &&
             GroupService.DefaultChoice(old(db.groups), user, old(db.nextId)).value.Some?) ==>
      (r.Ok? <==> !ExistsIgnoreCaseInGroupOrGlobal(old(db.tags), user, t.name, GroupService.DefaultChoice(old(db.groups), user, old(db.nextId)).value))
    ensures r.Err? ==> db.tags == old(db.tags) && db.groups == old(db.groups)
    ensures r.Ok? ==> r.value !in old(db.tags)
    ensures r.Ok? ==> db.tags == old(db.tags)[r.value := t.(owner := Some(user), group := GroupService.DefaultChoice(old(db.groups), user, old(db.nextId)).value)]
    ensures r.Ok? ==> db.groups == if GroupService.HasAnyGroups(old(db.groups), user) then old(db.groups)
                                   else old(db.groups)[old(db.nextId) := GroupService.DefaultGroup(user)]
  {
    var groupsBefore := db.groups;
    var d := GroupService.GetDefaultGroup(db, user);
    if d.Err? {
      return Err(d.error);
    }
    if d.value.None? {
      db.groups := groupsBefore;
      return Err(InvalidState("No default group"));
    }
    r := CreateTagInGroup(db, user, t, d.value);
    if r.Err? {
      db.groups := groupsBefore;
    }
  }

  /**
   * getOrCreateGlobalTag: looks in the scope of the group getDefaultGroup
   * yields and otherwise creates the tag there. Without such a group the
   * scope is the global tags alone and the new tag is global. Several
   * matching tags make the finder throw, which rolls back the Default group
   * created on the way.
   */
  method GetOrCreateGlobalTag(db: Database, user: UserId, name: string, color: Option<string>) returns (r: Result<TagId>)
    requires db.Valid()
    modifies db`tags, db`groups, db`nextId
    ensures db.Valid()
    ensures GroupService.DefaultChoice(old(db.groups), user, old(db.nextId)).Err? ==> r == Err(IncorrectResultSize)
    ensures GroupService.DefaultChoice(old(db.groups), user, old(db.nextId)).Ok? ==>
      (r.Err? <==> FindIgnoreCaseInGroupOrGlobal(old(db.tags), user, name, GroupService.DefaultChoice(old(db.groups), user, old(db.nextId)).value).Err?)
    ensures r.Err? ==> r.error == IncorrectResultSize && db.tags == old(db.tags) && db.groups == old(db.groups)
    ensures r.Ok? ==> FindIgnoreCaseInGroupOrGlobal(db.tags, user, name, GroupService.DefaultChoice(old(db.groups), user, old(db.nextId)).value) == Ok(Some(r.value))
    ensures r.Ok? && ExistsIgnoreCaseInGroupOrGlobal(old(db.tags), user, name, GroupService.DefaultChoice(old(db.groups), user, old(db.nextId)).value) ==>
      db.tags == old(db.tags)
    ensures r.Ok? && !ExistsIgnoreCaseInGroupOrGlobal(old(db.tags), user, name, GroupService.DefaultChoice(old(db.groups), user, old(db.nextId)).value) ==>
      r.value !in old(db.tags) &&
      db.tags == old(db.tags)[r.value := Tag(name, color, Some(user), GroupService.DefaultChoice(old(db.groups), user, old(db.nextId)).value, false)]
    ensures r.Ok? ==> db.groups == if GroupService.HasAnyGroups(old(db.groups), user) then old(db.groups)
                                   else old(db.groups)[old(db.nextId) := GroupService.DefaultGroup(user)]
  {
    var groupsBefore := db.groups;
    var d := GroupService.GetDefaultGroup(db, user);
    if d.Err? {
      return Err(d.error);
    }
    r := GetOrCreateInScope(db, user, name, color, d.value);
    if r.Err? {
      db.groups := groupsBefore;
    }
  }

  /** The shared find-or-create of the scoped variants: the one match in scope d, or a new tag scoped to d. */
  method GetOrCreateInScope(db: Database, user: UserId, name: string, color: Option<string>, d: Option<GroupId>) returns (r: Result<TagId>)
    requires db.Valid()
    requires d.Some? ==> d.value in db.groups
    modifies db`tags, db`nextId
    ensures db.Valid()
    ensures r.Err? <==> FindIgnoreCaseInGroupOrGlobal(old(db.tags), user, name, d).Err?
    ensures r.Err? ==> r.error == IncorrectResultSize && db.tags == old(db.tags)
    ensures r.Ok? ==> FindIgnoreCaseInGroupOrGlobal(db.tags, user, name, d) == Ok(Some(r.value))
    ensures ExistsIgnoreCaseInGroupOrGlobal(old(db.tags), user, name, d) ==> db.tags == old(db.tags)
    ensures !ExistsIgnoreCaseInGroupOrGlobal(old(db.tags), user, name, d) ==> r.Ok? && r.value !in old(db.tags)
    ensures !ExistsIgnoreCaseInGroupOrGlobal(old(db.tags), user, name, d) ==> db.tags == old(db.tags)[r.value := Tag(name, color, Some(user), d, false)]
  {
    var found := FindIgnoreCaseInGroupOrGlobal(db.tags, user, name, d);
    if found.Err? {
      return Err(found.error);
    }
    if found.value.Some? {
      return Ok(found.value.value);
    }
    var id := Insert(db, Tag(name, color, Some(user), d, false));
    AddedTagIsOnlyMatch(old(db.tags), id, Tag(name, color, Some(user), d, false), user, name, d);
    r := Ok(id);
  }

  /**
   * getOrCreateTagInGroup: one of the user's groups is used as the scope;
   * otherwise (no group, an unknown or another user's group) it falls back
   * to getOrCreateGlobalTag.
   */
  method GetOrCreateTagInGroup(db: Database, user: UserId, name: string, color: Option<string>, g: Option<GroupId>) returns (r: Result<TagId>)
    requires db.Valid()
    modifies db`tags, db`groups, db`nextId
    ensures db.Valid()
    ensures r.Ok? ==> r.value in db.tags && db.tags[r.value].owner == Some(user) && NameMatchesIgnoreCase(db.tags[r.value], name)
    ensures r.Err? ==> r.error == IncorrectResultSize && db.tags == old(db.tags) && db.groups == old(db.groups)
    ensures g.Some? && GroupService.OwnedGroup(old(db.groups), user, g.value) ==>
      db.groups == old(db.groups) && (r.Err? <==> FindIgnoreCaseInGroupOrGlobal(old(db.tags), user, name, g).Err?)
    ensures g.Some? && GroupService.OwnedGroup(old(db.groups), user, g.value) && r.Ok? ==>
      FindIgnoreCaseInGroupOrGlobal(db.tags, user, name, g) == Ok(Some(r.value))
    ensures g.Some? && GroupService.OwnedGroup(old(db.groups), user, g.value) && ExistsIgnoreCaseInGroupOrGlobal(old(db.tags), user, name, g) ==>
      db.tags == old(db.tags)
    ensures g.Some? && GroupService.OwnedGroup(old(db.groups), user, g.value) && !ExistsIgnoreCaseInGroupOrGlobal(old(db.tags), user, name, g) ==>
      r.Ok? && r.value !in old(db.tags) && db.tags == old(db.tags)[r.value := Tag(name, color, Some(user), g, false)]
    ensures !(g.Some? && GroupService.OwnedGroup(old(db.groups), user, g.value)) ==>
      (r.Err? <==> GroupService.DefaultChoice(old(db.groups), user, old(db.nextId)).Err? ||
                   FindIgnoreCaseInGroupOrGlobal(old(db.tags), user, name, GroupService.DefaultChoice(old(db.groups), user, old(db.nextId)).value).Err?)
    ensures !(g.Some? && GroupService.OwnedGroup(old(db.groups), user, g.value)) && r.Ok? ==>
      GroupService.DefaultChoice(old(db.groups), user, old(db.nextId)).Ok? &&
      FindIgnoreCaseInGroupOrGlobal(db.tags, user, name, GroupService.DefaultChoice(old(db.groups), user, old(db.nextId)).value) == Ok(Some(r.value))
    ensures !(g.Some? && GroupService.OwnedGroup(old(db.groups), user, g.value)) && r.Ok? &&
            ExistsIgnoreCaseInGroupOrGlobal(old(db.tags), user, name, GroupService.DefaultChoice(old(db.groups), user, old(db.nextId)).value) ==>
      db.tags == old(db.tags)
    ensures !(g.Some? && GroupService.OwnedGroup(old(db.groups), user, g.value)) && r.Ok? &&
            !ExistsIgnoreCaseInGroupOrGlobal(old(db.tags), user, name, GroupService.DefaultChoice(old(db.groups), user, old(db.nextId)).value) ==>
      r.value !in old(db.tags) &&
      db.tags == old(db.tags)[r.value := Tag(name, color, Some(user), GroupService.DefaultChoice(old(db.groups), user, old(db.nextId)).value, false)]
    ensures r.Ok? && r.value !in old(db.tags) ==> db.tags == old(db.tags)[r.value := db.tags[r.value]]
  {
    if g.Some? && GroupService.OwnedGroup(db.groups, user, g.value) {
      r := GetOrCreateInScope(db, user, name, color, g);
      return;
    }
    r := GetOrCreateGlobalTag(db, user, name, color);
  }

  /** tagExistsInGroup: user-wide for no group, false for a group the user does not own, else the scoped check. */
  function TagExistsInGroup(tags: TagTable, groups: GroupTable, user: UserId, name: string, g: Option<GroupId>): (r: bool)
    ensures g.None? ==> (r <==> ExistsIgnoreCase(tags, user, name))
    ensures g.Some? && !GroupService.OwnedGroup(groups, user, g.value) ==> !r
    ensures g.Some? && GroupService.OwnedGroup(groups, user, g.value) ==> (r <==> ExistsIgnoreCaseInGroupOrGlobal(tags, user, name, g))
  {
    if g.None? then ExistsIgnoreCase(tags, user, name)
    else GroupService.OwnedGroup(groups, user, g.value) && ExistsIgnoreCaseInGroupOrGlobal(tags, user, name, g)
  }

  /** createTagInGroup refuses exactly the names tagExistsInGroup reports, for one of the user's groups or none. */
  lemma CreateRefusesExisting(tags: TagTable, groups: GroupTable, user: UserId, name: string, g: Option<GroupId>)
    requires g.Some? ==> GroupService.OwnedGroup(groups, user, g.value)
    ensures TagExistsInGroup(tags, groups, user, name, g) ==> ExistsIgnoreCase(tags, user, name)
  {
    if g.Some? {
      ScopedChecksNest(tags, user, name, g);
    }
  }

  /** findTagByNameInGroup: the finders' outcome, nothing for a group the user does not own. */
  function FindTagByNameInGroup(tags: TagTable, groups: GroupTable, user: UserId, name: string, g: Option<GroupId>): (r: Result<Option<TagId>>)
    ensures r == Ok(None) <==> !TagExistsInGroup(tags, groups, user, name, g)
    ensures r.Ok? && r.value.Some? ==> OwnedBy(tags, user, r.value.value) && NameMatchesIgnoreCase(tags[r.value.value], name)
    ensures r.Ok? && r.value.Some? && g.Some? ==> InGroupOrGlobal(tags[r.value.value], g)
    ensures r.Err? ==> r.error == IncorrectResultSize && TagExistsInGroup(tags, groups, user, name, g)
  {
    if g.None? then FindIgnoreCase(tags, user, name)
    else if !GroupService.OwnedGroup(groups, user, g.value) then Ok(None)
    else FindIgnoreCaseInGroupOrGlobal(tags, user, name, g)
  }

  /** findPopularTagsInGroup. */
  function PopularTagsInGroup(tags: TagTable, rows: seq<NoteTag>, groups: GroupTable, user: UserId, g: Option<GroupId>): (r: seq<TagId>)
    ensures g.Some? && !GroupService.OwnedGroup(groups, user, g.value) ==> r == []
    ensures g.None? ==> forall id :: id in r <==> id in UserTags(tags, user)
    ensures g.Some? && GroupService.OwnedGroup(groups, user, g.value) ==> forall id :: id in r <==> id in GroupTags(tags, user, g.value) + GlobalTags(tags, user)
  {
    PopularSpec(tags, rows, user, if g.Some? then g.value else 0);
    if g.None? then Popular(tags, rows, user)
    else if !GroupService.OwnedGroup(groups, user, g.value) then []
    else PopularInGroup(tags, rows, user, g.value)
  }

  /** findUnusedTagsInGroup: the unused global tags for no group, none for a group the user does not own. */
  function UnusedTagsInGroup(tags: TagTable, rows: seq<NoteTag>, groups: GroupTable, user: UserId, g: Option<GroupId>): (r: set<TagId>)
    ensures r <= UnusedTags(tags, rows, user)
    ensures g.None? ==> r == GlobalTags(tags, user) * UnusedTags(tags, rows, user)
    ensures g.Some? && !GroupService.OwnedGroup(groups, user, g.value) ==> r == {}
    ensures g.Some? && GroupService.OwnedGroup(groups, user, g.value) ==> r == GroupTags(tags, user, g.value) * UnusedTags(tags, rows, user)
  {
    if g.None? then UnusedGlobal(tags, rows, user)
    else if !GroupService.OwnedGroup(groups, user, g.value) then {}
    else UnusedInGroup(tags, rows, user, g.value)
  }

  /** deleteUnusedTags: removes the user's tags that no note carries; no join row is affected. */
  method DeleteUnusedTags(db: Database, user: UserId)
    requires db.Valid()
    modifies db`tags
    ensures db.Valid()
    ensures db.tags == old(db.tags) - UnusedTags(old(db.tags), db.noteTags, user)
    ensures forall x :: x in db.noteTags ==> x.tag in db.tags || x.tag !in old(db.tags)
  {
    forall x | x in db.noteTags ensures x !in db.noteTags || x.tag !in UnusedTags(db.tags, db.noteTags, user) {
      UnusedMeansNoRows(db.tags, db.noteTags, user, x.tag);
    }
    db.tags := db.tags - UnusedTags(db.tags, db.noteTags, user);
  }

  /** deleteUnusedTagsInGroup. */
  method DeleteUnusedTagsInGroup(db: Database, user: UserId, g: Option<GroupId>)
    requires db.Valid()
    modifies db`tags
    ensures db.Valid()
    ensures db.tags == old(db.tags) - UnusedTagsInGroup(old(db.tags), db.noteTags, db.groups, user, g)
  {
    db.tags := db.tags - UnusedTagsInGroup(db.tags, db.noteTags, db.groups, user, g);
  }

  /**
   * moveTagToGroup: the user's tag gets the new group (none allowed); a tag
   * or a group the user does not own is refused. Only the tag's group
   * changes, and the join rows are not touched.
   */
  method MoveTagToGroup(db: Database, user: UserId, id: TagId, g: Option<GroupId>) returns (r: Result<TagId>)
    requires db.Valid()
    modifies db`tags
    ensures db.Valid()
    ensures r.Ok? <==> OwnedBy(old(db.tags), user, id) && (g.Some? ==> GroupService.OwnedGroup(db.groups, user, g.value))
    ensures r.Err? ==> r.error.InvalidArgument? && db.tags == old(db.tags)
    ensures r.Ok? ==> r.value == id && db.tags == old(db.tags)[id := old(db.tags)[id].(group := g)]
  {
    if !OwnedBy(db.tags, user, id) {
      return Err(InvalidArgument("Tag not found"));
    }
    if g.Some? && !GroupService.OwnedGroup(db.groups, user, g.value) {
      return Err(InvalidArgument("Group not found"));
    }
    db.tags := db.tags[id := db.tags[id].(group := g)];
    r := Ok(id);
  }

  /**
   * makeTagGlobal: moves the tag to the group getDefaultGroup yields rather
   * than to no group; when the user has groups but no root group there is no
   * group and the call fails, and any failure rolls back the Default group
   * created on the way.
   */
  method MakeTagGlobal(db: Database, user: UserId, id: TagId) returns (r: Result<TagId>)
    requires db.Valid()
    modifies db`tags, db`groups, db`nextId
    ensures db.Valid()
    ensures GroupService.DefaultChoice(old(db.groups), user, old(db.nextId)).Err? ==> r == Err(IncorrectResultSize)
    ensures GroupService.DefaultChoice(old(db.groups), user, old(db.nextId)) == Ok(None) ==> r.Err? && r.error.InvalidState?
    ensures (GroupService.DefaultChoice(old(db.groups), user, old(db.nextId)).Ok? &&
             GroupService.DefaultChoice(old(db.groups), user, old(db.nextId)).value.Some?) ==> (r.Ok? <==> OwnedBy(old(db.tags), user, id))
    ensures r.Err? ==> db.tags == old(db.tags) && db.groups == old(db.groups)
    ensures r.Ok? ==> r.value == id && db.tags == old(db.tags)[id := old(db.tags)[id].(group := GroupService.DefaultChoice(old(db.groups), user, old(db.nextId)).value)]
    ensures r.Ok? ==> db.groups == if GroupService.HasAnyGroups(old(db.groups), user) then old(db.groups)
                                   else old(db.groups)[old(db.nextId) := GroupService.DefaultGroup(user)]
  {
    var groupsBefore := db.groups;
    var d := GroupService.GetDefaultGroup(db, user);
    if d.Err? {
      return Err(d.error);
    }
    if d.value.None? {
      db.groups := groupsBefore;
      return Err(InvalidState("No default group"));
    }
    r := MoveTagToGroup(db, user, id, d.value);
    if r.Err? {
      db.groups := groupsBefore;
    }
  }
}
