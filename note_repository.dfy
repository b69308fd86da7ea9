// Finders over the note table, joined with the note-tag rows and the tag
// table where the query filters by tag name.
module NoteRepository {
  import opened Wrappers
  import opened Ids
  import opened Notes
  import opened Tags
  import opened Groups
  import Strings
  import Sorting
  import Seqs

  type NoteTable = map<NoteId, Note>

  predicate OwnedBy(notes: NoteTable, user: UserId, id: NoteId)
  {
    id in notes && notes[id].owner == Some(user)
  }

  /** The names of the stored tags a note carries (JOIN n.noteTags nt JOIN nt.tag t). */
  function TagNamesOf(tags: map<TagId, Tag>, rows: seq<NoteTag>, n: NoteId): set<string>
  {
    set x | x in rows && x.note == n && x.tag in tags :: tags[x.tag].name
  }

  predicate HasTagNamed(tags: map<TagId, Tag>, rows: seq<NoteTag>, n: NoteId, name: string)
  {
    exists x :: x in rows && x.note == n && x.tag in tags && tags[x.tag].name == name
  }

  lemma TagNamesOfIff(tags: map<TagId, Tag>, rows: seq<NoteTag>, n: NoteId, name: string)
    ensures name in TagNamesOf(tags, rows, n) <==> HasTagNamed(tags, rows, n, name)
  {
  }

  /** findByUserAndTagName: exact name equality. */
  function ByUserAndTagName(notes: NoteTable, tags: map<TagId, Tag>, rows: seq<NoteTag>, user: UserId, name: string): set<NoteId>
  {
    set n | n in notes && OwnedBy(notes, user, n) && name in TagNamesOf(tags, rows, n)
  }

  /** findByUserAndTagNames: the user's notes with at least one listed tag name. */
  function ByUserAndTagNames(notes: NoteTable, tags: map<TagId, Tag>, rows: seq<NoteTag>, user: UserId, names: seq<string>): set<NoteId>
  {
    set n | n in notes && OwnedBy(notes, user, n) && exists nm :: nm in names && nm in TagNamesOf(tags, rows, n)
  }

  /** findByAnyTags: the same test over every user's notes. */
  function ByAnyTags(notes: NoteTable, tags: map<TagId, Tag>, rows: seq<NoteTag>, names: seq<string>): set<NoteId>
  {
    set n | n in notes && exists nm :: nm in names && nm in TagNamesOf(tags, rows, n)
  }

  /** The distinct listed names a note carries (COUNT(DISTINCT t.name) ... t.name IN :tagNames). */
  function NamesAmong(tags: map<TagId, Tag>, rows: seq<NoteTag>, n: NoteId, names: seq<string>): set<string>
  {
    set nm | nm in names && nm in TagNamesOf(tags, rows, n)
  }

  /**
   * findByAllTags(names, count): every note (of any user) whose number of
   * distinct listed names equals count. A note with none of them matches a
   * count of zero.
   */
  function ByAllTags(notes: NoteTable, tags: map<TagId, Tag>, rows: seq<NoteTag>, names: seq<string>, count: int): set<NoteId>
  {
    set n | n in notes && |NamesAmong(tags, rows, n, names)| == count
  }

  /**
   * With count set to the list's length: for a list without repeats a note
   * matches exactly when it carries every listed name; a repeated name makes
   * nothing match; and a note matching a non-empty list also matches the
   * ANY query.
   */
  lemma ByAllTagsSpec(notes: NoteTable, tags: map<TagId, Tag>, rows: seq<NoteTag>, names: seq<string>, n: NoteId)
    ensures Seqs.Distinct(names) ==>
      (n in ByAllTags(notes, tags, rows, names, |names|) <==> n in notes && forall nm :: nm in names ==> nm in TagNamesOf(tags, rows, n))
    ensures !Seqs.Distinct(names) ==> n !in ByAllTags(notes, tags, rows, names, |names|)
    ensures |names| > 0 && n in ByAllTags(notes, tags, rows, names, |names|) ==> n in ByAnyTags(notes, tags, rows, names)
  {
    var hit := NamesAmong(tags, rows, n, names);
    assert hit <= Seqs.Elements(names);
    Seqs.HitCount(hit, names);
    if !Seqs.Distinct(names) {
      var i, j :| 0 <= i < j < |names| && names[i] == names[j];
      Seqs.RepeatShrinks(names, i, j);
      Seqs.SubsetCard(hit, Seqs.Elements(names));
    }
    if Seqs.Distinct(names) && forall nm :: nm in names ==> nm in TagNamesOf(tags, rows, n) {
      assert hit == Seqs.Elements(names);
    }
    if |names| > 0 && n in ByAllTags(notes, tags, rows, names, |names|) {
      assert names[0] in names;
    }
  }

  /** A zero count matches the notes that carry none of the names, so an empty list matches every note. */
  lemma ByAllTagsEmptyList(notes: NoteTable, tags: map<TagId, Tag>, rows: seq<NoteTag>)
    ensures ByAllTags(notes, tags, rows, [], 0) == notes.Keys
  {
    forall n | n in notes ensures NamesAmong(tags, rows, n, []) == {} {
    }
  }

  /** findByGroupAndSubGroups: notes in g or in a direct subgroup of g, of any user. */
  function ByGroupAndSubGroups(notes: NoteTable, groups: GroupTable, g: GroupId): set<NoteId>
  {
    set n | n in notes && notes[n].group.Some? && (notes[n].group.value == g || notes[n].group.value in SubGroups(groups, g))
  }

  /** Grandchildren are not searched: a note two levels below g is left out. */
  lemma ByGroupAndSubGroupsDepth(notes: NoteTable, groups: GroupTable, g: GroupId, n: NoteId)
    requires n in notes && notes[n].group.Some? && notes[n].group.value in groups
    ensures notes[n].group == Some(g) ==> n in ByGroupAndSubGroups(notes, groups, g)
    ensures groups[notes[n].group.value].parent == Some(g) ==> n in ByGroupAndSubGroups(notes, groups, g)
    ensures notes[n].group != Some(g) && groups[notes[n].group.value].parent != Some(g) ==> n !in ByGroupAndSubGroups(notes, groups, g)
  {
  }

  /** findByUserAndGroupIdOrderByCreatedAtDesc, as a set. */
  function ByUserAndGroup(notes: NoteTable, user: UserId, g: GroupId): set<NoteId>
  {
    set n | n in notes && OwnedBy(notes, user, n) && notes[n].group == Some(g)
  }

  /** findByUserAndGroupIsNullOrderByCreatedAtDesc, as a set. */
  function Ungrouped(notes: NoteTable, user: UserId): set<NoteId>
  {
    set n | n in notes && OwnedBy(notes, user, n) && notes[n].group.None?
  }

  /** NULL content never matches a LIKE pattern. */
  predicate ContentContains(n: Note, term: string)
  {
    n.content.Some? && Strings.Contains(Strings.Lower(n.content.value), Strings.Lower(term))
  }

  predicate TitleContains(n: Note, term: string)
  {
    Strings.Contains(Strings.Lower(n.title), Strings.Lower(term))
  }

  /** findByUserAndTitleContainingIgnoreCase. */
  function ByTitle(notes: NoteTable, user: UserId, term: string): set<NoteId>
  {
    set n | n in notes && OwnedBy(notes, user, n) && TitleContains(notes[n], term)
  }

  /** findByUserAndContentContainingIgnoreCase. */
  function ByContent(notes: NoteTable, user: UserId, term: string): set<NoteId>
  {
    set n | n in notes && OwnedBy(notes, user, n) && ContentContains(notes[n], term)
  }

  /** searchNotesByUser: title or content contains the term, ignoring case. */
  function Search(notes: NoteTable, user: UserId, term: string): (r: set<NoteId>)
    ensures r == ByTitle(notes, user, term) + ByContent(notes, user, term)
  {
    set n | n in notes && OwnedBy(notes, user, n) && (TitleContains(notes[n], term) || ContentContains(notes[n], term))
  }

  /** The empty term matches every one of the user's notes. */
  lemma SearchEmptyTerm(notes: NoteTable, user: UserId)
    ensures Search(notes, user, "") == set n | n in notes && OwnedBy(notes, user, n)
  {
    forall n | n in notes && OwnedBy(notes, user, n) ensures TitleContains(notes[n], "") {
      Strings.ContainsPrefix(Strings.Lower(notes[n].title), Strings.Lower(""));
    }
  }

  /** The sort key of ORDER BY createdAt; a note not yet saved sorts as time zero. */
  function CreatedKey(notes: NoteTable, n: NoteId): int
  {
    if n in notes && notes[n].createdAt.Some? then notes[n].createdAt.value else 0
  }

  /** findByUserOrderByCreatedAtDesc: the user's notes, newest first. */
  function UserNotesNewestFirst(notes: NoteTable, user: UserId): seq<NoteId>
  {
    Sorting.SortDesc(Sorting.Ascending(set n | n in notes && OwnedBy(notes, user, n)), (n: NoteId) => CreatedKey(notes, n))
  }

  lemma UserNotesNewestFirstSpec(notes: NoteTable, user: UserId)
    ensures forall n :: n in UserNotesNewestFirst(notes, user) <==> OwnedBy(notes, user, n)
    ensures Seqs.Distinct(UserNotesNewestFirst(notes, user))
    ensures Sorting.SortedDesc(UserNotesNewestFirst(notes, user), (n: NoteId) => CreatedKey(notes, n))
  {
    Sorting.SortSetSpec(set n | n in notes && OwnedBy(notes, user, n), (n: NoteId) => CreatedKey(notes, n));
  }
}
