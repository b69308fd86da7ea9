// Tags and the note-tag join table. A tag is global when it has no group,
// otherwise it is scoped to one group.
module Tags {
  import opened Wrappers
  import opened Ids
  import Strings

  datatype Tag = Tag(
    name: string,
    color: Option<string>,
    owner: Option<UserId>,
    group: Option<GroupId>,
    isKey: bool)

  /** One row of the join table, keyed by the (note, tag) pair. */
  datatype NoteTag = NoteTag(note: NoteId, tag: TagId)

  /** Tag.of(name): no colour, no owner, global. */
  function Of(name: string): (t: Tag)
    ensures t.name == name && t.color.None? && t.group.None? && !t.isKey
  {
    Tag(name, None, None, None, false)
  }

  /** Tag.of(name, color) and Tag.withColor. */
  function WithColor(name: string, color: string): (t: Tag)
    ensures t == Of(name).(color := Some(color))
  {
    Tag(name, Some(color), None, None, false)
  }

  predicate IsGlobal(t: Tag)
  {
    t.group.None?
  }

  predicate NameMatchesIgnoreCase(t: Tag, name: string)
  {
    Strings.EqualsIgnoreCase(t.name, name)
  }
}
