// The note service: create with the Default-group fallback, update that
// keeps what the form does not carry, owner-checked delete with its
// cascades, tag attach and detach, the ALL/ANY tag finders and group
// assignment.
module NoteService {
  import opened Wrappers
  import opened Ids
  import opened Notes
  import opened Tags
  import opened Groups
  import opened Store
  import opened NoteRepository
  import NoteTagRepository
  import LinkRepository
  import GroupService
  import NoteTagService

  /**
   * The group a new note without one is given by a user who has groups,
   * from the groups as they were: the user's one group named exactly
   * "Default", else the first root group; several groups of that name make
   * the finder throw.
   */
  function FallbackGroup(groups: GroupTable, user: UserId): (r: Result<Option<GroupId>>)
    requires GroupService.HasAnyGroups(groups, user)
    ensures r.Err? <==> GroupService.FindByUserAndName(groups, user, GroupService.DefaultGroupName).Err?
    ensures r.Ok? && r.value.Some? ==> GroupService.OwnedGroup(groups, user, r.value.value)
  {
    var named := GroupService.FindByUserAndName(groups, user, GroupService.DefaultGroupName);
    if named.Err? || named.value.Some? then named else Ok(GroupService.FirstRoot(groups, user))
  }

  /** The fallback is missing only when the user has no root group and none named "Default". */
  lemma FallbackGroupSpec(groups: GroupTable, user: UserId)
    requires GroupService.HasAnyGroups(groups, user)
    ensures FallbackGroup(groups, user) == Ok(None) <==>
      (!GroupService.ExistsByUserAndName(groups, user, GroupService.DefaultGroupName)
       && forall g :: g in groups ==> !GroupService.IsUserRoot(groups, user, g))
    ensures GroupService.ExistsByUserAndName(groups, user, GroupService.DefaultGroupName) && FallbackGroup(groups, user).Ok? ==>
      FallbackGroup(groups, user).value.Some? && groups[FallbackGroup(groups, user).value.value].name == GroupService.DefaultGroupName
  {
    var named := GroupService.FindByUserAndName(groups, user, GroupService.DefaultGroupName);
    if named.Ok? && named.value.Some? {
      assert GroupService.OwnedNamed(groups, user, GroupService.DefaultGroupName, named.value.value);
    }
  }

  /**
   * createNote: the acting user owns the note. A note without a group goes
   * to a new Default group when the user has no groups, else to the user's
   * group named exactly "Default", else to what createDefaultGroup returns
   * for a user with groups: the first root group. When that is none, logging
   * the new group's name dereferences null and nothing is saved; several
   * groups named "Default" make the finder throw, again saving nothing.
   */
  method CreateNote(db: Database, user: UserId, note: Note, now: int) returns (r: Result<NoteId>)
    requires db.Valid()
    modifies db`notes, db`groups, db`nextId
    ensures db.Valid()
    ensures r.Err? <==> note.group.None? && GroupService.HasAnyGroups(old(db.groups), user) &&
                        (FallbackGroup(old(db.groups), user).Err? || FallbackGroup(old(db.groups), user) == Ok(None))
    ensures r.Err? ==> db.notes == old(db.notes) && db.groups == old(db.groups)
    ensures r.Err? && FallbackGroup(old(db.groups), user).Err? ==> r.error == IncorrectResultSize
    ensures r.Err? && FallbackGroup(old(db.groups), user) == Ok(None) ==> r.error.InvalidState?
    ensures r.Ok? ==> r.value !in old(db.notes) && r.value in db.notes && db.notes == old(db.notes)[r.value := db.notes[r.value]]
    ensures r.Ok? ==> db.notes[r.value] == note.(owner := Some(user), createdAt := Some(now), group := db.notes[r.value].group)
    ensures r.Ok? ==> db.notes[r.value].group.Some?
    ensures r.Ok? && note.group.Some? ==> db.notes[r.value].group == note.group && db.groups == old(db.groups)
    ensures r.Ok? && note.group.None? && GroupService.HasAnyGroups(old(db.groups), user) ==>
      FallbackGroup(old(db.groups), user) == Ok(db.notes[r.value].group) && db.groups == old(db.groups)
    ensures note.group.None? && !GroupService.HasAnyGroups(old(db.groups), user) ==>
      r.Ok? && db.notes[r.value].group.value !in old(db.groups)
    ensures r.Ok? && note.group.None? && !GroupService.HasAnyGroups(old(db.groups), user) ==>
      db.groups == old(db.groups)[db.notes[r.value].group.value := GroupService.DefaultGroup(user)]
  {
    var group := note.group;
    if group.None? {
      if !GroupService.HasAnyGroups(db.groups, user) {
        group := GroupService.CreateDefaultGroup(db, user);
      } else {
        var named := GroupService.FindByUserAndName(db.groups, user, GroupService.DefaultGroupName);
        if named.Err? {
          return Err(named.error);
        }
        if named.value.Some? {
          group := named.value;
        } else {
          group := GroupService.CreateDefaultGroup(db, user);
          if group.None? {
            return Err(InvalidState("No default group"));
          }
        }
      }
    }
    var id := db.FreshId();
    db.notes := db.notes[id := note.(owner := Some(user), createdAt := Some(now), group := group)];
    r := Ok(id);
  }

  /**
   * updateNote: only a note the user owns is updated; the stored creation
   * time and attachments are kept, and its links and tags, which live in
   * their own tables, are untouched.
   */
  method UpdateNote(db: Database, user: UserId, id: NoteId, note: Note) returns (r: Result<NoteId>)
    requires db.Valid()
    modifies db`notes
    ensures db.Valid()
    ensures r.Ok? <==> OwnedBy(old(db.notes), user, id)
    ensures r.Err? ==> db.notes == old(db.notes)
    ensures r.Ok? ==> r.value == id && db.notes == old(db.notes)[id :=
      note.(owner := Some(user), createdAt := old(db.notes)[id].createdAt, attachments := old(db.notes)[id].attachments)]
  {
    if !OwnedBy(db.notes, user, id) {
      return Err(NotFound("Note"));
    }
    var existing := db.notes[id];
    db.notes := db.notes[id := note.(owner := Some(user), createdAt := existing.createdAt, attachments := existing.attachments)];
    r := Ok(id);
  }

  /**
   * deleteNote: only a note the user owns is deleted; its tag rows, its
   * links in both directions and its attachments go with it.
   */
  method DeleteNote(db: Database, user: UserId, id: NoteId) returns (r: Result<()>)
    requires db.Valid()
    modifies db`notes, db`noteTags, db`links
    ensures db.Valid()
    ensures r.Ok? <==> OwnedBy(old(db.notes), user, id)
    ensures r.Err? ==> db.notes == old(db.notes) && db.noteTags == old(db.noteTags) && db.links == old(db.links)
    ensures r.Ok? ==> db.notes == old(db.notes) - {id}
    ensures r.Ok? ==> db.noteTags == NoteTagRepository.WithoutNote(old(db.noteTags), id)
    ensures r.Ok? ==> db.links == LinkRepository.Where(old(db.links), (l: NoteLinks.NoteLink) => !NoteLinks.Involves(l, id))
    ensures r.Ok? ==> LinkRepository.ForNote(db.links, id) == [] && NoteTagRepository.CountByNote(db.noteTags, id) == 0
  {
    if !OwnedBy(db.notes, user, id) {
      return Err(NotFound("Note"));
    }
    LinkRepository.DeleteAllLinksForNote(db, id);
    RemoveNoteRows(db, id);
    r := Ok(());
  }

  /** The last steps of deleteNote: the note's tag rows and then the note itself go. */
  method RemoveNoteRows(db: Database, id: NoteId)
    requires db.Valid()
    modifies db`notes, db`noteTags
    ensures db.Valid()
    ensures db.notes == old(db.notes) - {id}
    ensures db.noteTags == NoteTagRepository.WithoutNote(old(db.noteTags), id)
    ensures NoteTagRepository.CountByNote(db.noteTags, id) == 0
  {
    NoteTagRepository.WithoutNoteClears(db.noteTags, id);
    db.noteTags := NoteTagRepository.WithoutNote(db.noteTags, id);
    db.notes := db.notes - {id};
  }

  /** addTagToNote: a missing note or tag is refused; an existing pair is left as it is. */
  method AddTagToNote(db: Database, note: NoteId, tag: TagId) returns (r: Result<NoteId>)
    requires db.Valid()
    modifies db`noteTags
    ensures db.Valid()
    ensures r.Ok? <==> note in db.notes && tag in db.tags
    ensures r.Err? ==> db.noteTags == old(db.noteTags)
    ensures r.Ok? && NoteTagRepository.Exists(old(db.noteTags), note, tag) ==> db.noteTags == old(db.noteTags)
    ensures r.Ok? && !NoteTagRepository.Exists(old(db.noteTags), note, tag) ==> db.noteTags == old(db.noteTags) + [NoteTag(note, tag)]
    ensures r.Ok? ==> NoteTagRepository.Exists(db.noteTags, note, tag)
  {
    if note !in db.notes {
      return Err(NotFound("Note"));
    }
    if tag !in db.tags {
      return Err(NotFound("Tag"));
    }
    if !NoteTagRepository.Exists(db.noteTags, note, tag) {
      NoteTagService.AppendKeepsDistinct(db.noteTags, NoteTag(note, tag));
      db.noteTags := db.noteTags + [NoteTag(note, tag)];
    }
    r := Ok(note);
  }

  /**
   * removeTagFromNote: a missing note is refused; removing a tag the note
   * does not carry changes nothing. The note is then re-read for the acting
   * user, and when the user does not own it the call fails and the delete
   * is rolled back.
   */
  method RemoveTagFromNote(db: Database, user: UserId, note: NoteId, tag: TagId) returns (r: Result<NoteId>)
    requires db.Valid()
    modifies db`noteTags
    ensures db.Valid()
    ensures r.Ok? <==> OwnedBy(db.notes, user, note)
    ensures r.Err? ==> db.noteTags == old(db.noteTags)
    ensures note !in db.notes ==> r.Err? && r.error.NotFound?
    ensures r.Ok? ==> db.noteTags == NoteTagRepository.WithoutPair(old(db.noteTags), note, tag)
    ensures r.Ok? && !NoteTagRepository.Exists(old(db.noteTags), note, tag) ==> db.noteTags == old(db.noteTags)
    ensures r.Ok? ==> !NoteTagRepository.Exists(db.noteTags, note, tag)
  {
    if note !in db.notes {
      return Err(NotFound("Note"));
    }
    var before := db.noteTags;
    NoteTagRepository.RowsKeepDistinct(db.noteTags, NoteTagRepository.RowIsNot(NoteTag(note, tag)));
    NoteTagRepository.DeletesExact(db.noteTags, note, tag);
    if !NoteTagRepository.Exists(db.noteTags, note, tag) {
      NoteTagRepository.RowsAll(db.noteTags, NoteTagRepository.RowIsNot(NoteTag(note, tag)));
    }
    db.noteTags := NoteTagRepository.WithoutPair(db.noteTags, note, tag);
    if !OwnedBy(db.notes, user, note) {
      db.noteTags := before;
      return Err(NotFound("Note"));
    }
    r := Ok(note);
  }

  /** findNotesByAllTags: nothing for an empty list, else findByAllTags with the list's length, over every user's notes. */
  function FindNotesByAllTags(notes: NoteTable, tags: map<TagId, Tag>, rows: seq<NoteTag>, names: seq<string>): (r: set<NoteId>)
    ensures |names| == 0 ==> r == {}
    ensures |names| > 0 ==> r == ByAllTags(notes, tags, rows, names, |names|)
  {
    if |names| == 0 then {} else ByAllTags(notes, tags, rows, names, |names|)
  }

  /** findNotesByAnyTags (the list form): nothing for an empty list, else the user's notes with some listed name. */
  function FindNotesByAnyTags(notes: NoteTable, tags: map<TagId, Tag>, rows: seq<NoteTag>, user: UserId, names: seq<string>): (r: set<NoteId>)
    ensures |names| == 0 ==> r == {}
    ensures forall n :: n in r <==> OwnedBy(notes, user, n) && exists nm :: nm in names && nm in TagNamesOf(tags, rows, n)
  {
    if |names| == 0 then {} else ByUserAndTagNames(notes, tags, rows, user, names)
  }

  /** findNotesByAnyTags (the paged form): the same test over every user's notes. */
  function FindNotesByAnyTagsPaged(notes: NoteTable, tags: map<TagId, Tag>, rows: seq<NoteTag>, names: seq<string>): (r: set<NoteId>)
    ensures |names| == 0 ==> r == {}
    ensures forall n :: n in r <==> n in notes && exists nm :: nm in names && nm in TagNamesOf(tags, rows, n)
  {
    if |names| == 0 then {} else ByAnyTags(notes, tags, rows, names)
  }

  /**
   * The ALL result lies within the paged ANY result; the list form of ANY is
   * the part of that owned by the user, so an ALL match of another user's
   * note is not an ANY match there.
   */
  lemma AllWithinAny(notes: NoteTable, tags: map<TagId, Tag>, rows: seq<NoteTag>, user: UserId, names: seq<string>)
    ensures FindNotesByAllTags(notes, tags, rows, names) <= FindNotesByAnyTagsPaged(notes, tags, rows, names)
    ensures FindNotesByAnyTags(notes, tags, rows, user, names) == set n | n in FindNotesByAnyTagsPaged(notes, tags, rows, names) && OwnedBy(notes, user, n)
  {
    forall n | n in FindNotesByAllTags(notes, tags, rows, names) ensures n in FindNotesByAnyTagsPaged(notes, tags, rows, names) {
      ByAllTagsSpec(notes, tags, rows, names, n);
    }
  }

  /** assignNoteToGroup: a missing note or group is refused; only the note's group changes. */
  method AssignNoteToGroup(db: Database, note: NoteId, g: GroupId) returns (r: Result<NoteId>)
    requires db.Valid()
    modifies db`notes
    ensures db.Valid()
    ensures r.Ok? <==> note in old(db.notes) && g in db.groups
    ensures r.Err? ==> db.notes == old(db.notes)
    ensures r.Ok? ==> db.notes == old(db.notes)[note := old(db.notes)[note].(group := Some(g))]
  {
    if note !in db.notes {
      return Err(NotFound("Note"));
    }
    if g !in db.groups {
      return Err(NotFound("Group"));
    }
    db.notes := db.notes[note := db.notes[note].(group := Some(g))];
    r := Ok(note);
  }

  /** removeNoteFromGroup: a missing note is refused; the note's group becomes none. */
  method RemoveNoteFromGroup(db: Database, note: NoteId) returns (r: Result<NoteId>)
    requires db.Valid()
    modifies db`notes
    ensures db.Valid()
    ensures r.Ok? <==> note in old(db.notes)
    ensures r.Err? ==> db.notes == old(db.notes)
    ensures r.Ok? ==> db.notes == old(db.notes)[note := old(db.notes)[note].(group := None)]
  {
    if note !in db.notes {
      return Err(NotFound("Note"));
    }
    db.notes := db.notes[note := db.notes[note].(group := None)];
    r := Ok(note);
  }
}
