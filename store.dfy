// The in-memory database that stands in for the JPA repositories: one table
// per entity, keyed by identifiers drawn from a counter.
module Store {
  import opened Wrappers
  import opened Ids
  import opened NoteLinks
  import opened LinkTypes
  import opened Notes
  import opened Groups
  import opened Tags
  import NoteTagRepository

  /** The unique key of the link table: (source, target, link type). */
  datatype Triple = Triple(source: NoteId, target: NoteId, linkType: LinkType)

  function TripleOf(l: StoredLink): Triple
  {
    Triple(l.link.source, l.link.target, l.link.linkType)
  }

  predicate UniqueLinkIds(links: seq<StoredLink>)
  {
    forall i, j :: 0 <= i < j < |links| ==> links[i].id != links[j].id
  }

  predicate UniqueTriples(links: seq<StoredLink>)
  {
    forall i, j :: 0 <= i < j < |links| ==> TripleOf(links[i]) != TripleOf(links[j])
  }

  predicate IdsBelow(links: seq<StoredLink>, bound: nat)
  {
    forall i :: 0 <= i < |links| ==> links[i].id < bound
  }

  /** Every parent pointer names a stored group (the foreign key of parent_group_id). */
  predicate ParentsStored(groups: GroupTable)
  {
    forall g :: g in groups && groups[g].parent.Some? ==> groups[g].parent.value in groups
  }

  class Database {
    var notes: map<NoteId, Note>
    var groups: GroupTable
    var tags: map<TagId, Tag>
    var noteTags: seq<NoteTag>
    var links: seq<StoredLink>
    var nextId: nat

    /**
     * The table constraints: the link table's unique (source, target, type)
     * key and unique ids, the join table's composite key, and every stored
     * identifier below the counter.
     */
    predicate Valid()
      reads this
    {
      UniqueLinkIds(links) && UniqueTriples(links) && NoteTagRepository.Distinct(noteTags)
      && IdsBelow(links, nextId)
      && (forall n :: n in notes ==> n < nextId)
      && (forall g :: g in groups ==> g < nextId)
      && (forall t :: t in tags ==> t < nextId)
      && ParentsStored(groups)
    }

    constructor ()
      ensures Valid()
      ensures notes == map[] && groups == map[] && tags == map[] && noteTags == [] && links == []
    {
      notes := map[];
      groups := map[];
      tags := map[];
      noteTags := [];
      links := [];
      nextId := 0;
    }

    /** A new identifier, as the database assigns on the first save. */
    method FreshId() returns (id: nat)
      requires Valid()
      modifies this`nextId
      ensures Valid()
      ensures id == old(nextId) && nextId == id + 1
      ensures id !in notes && id !in groups && id !in tags
      ensures forall i :: 0 <= i < |links| ==> links[i].id != id
    {
      id := nextId;
      nextId := nextId + 1;
    }
  }
}
