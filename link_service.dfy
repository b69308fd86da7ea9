// Creating, updating and deleting links against the link table, with the
// validation order of the service and the table's unique key.
module LinkService {
  import opened Wrappers
  import opened Ids
  import opened LinkTypes
  import opened NoteLinks
  import opened Notes
  import opened Store
  import opened LinkRepository

  /** The first failed check of createLink, in the order the service makes them. */
  function CreateLinkError(notes: map<NoteId, Note>, links: seq<StoredLink>, source: NoteId, target: NoteId, t: LinkType): (e: Option<Error>)
    ensures e.None? <==> source in notes && target in notes && !ExistsTriple(links, Triple(source, target, t)) && source != target
  {
    if source !in notes then Some(NotFound("Source note"))
    else if target !in notes then Some(NotFound("Target note"))
    else if ExistsTriple(links, Triple(source, target, t)) then Some(AlreadyExists("Link between notes with this type"))
    else if source == target then Some(InvalidArgument("Cannot create self-referencing link"))
    else None
  }

  lemma CreateLinkErrorOrder(notes: map<NoteId, Note>, links: seq<StoredLink>, source: NoteId, target: NoteId, t: LinkType)
    ensures source !in notes ==> CreateLinkError(notes, links, source, target, t) == Some(NotFound("Source note"))
    ensures source in notes && target !in notes ==> CreateLinkError(notes, links, source, target, t) == Some(NotFound("Target note"))
    ensures source == target && source in notes ==> CreateLinkError(notes, links, source, target, t) != None
    ensures source in notes && target in notes && ExistsTriple(links, Triple(source, target, t)) ==>
      CreateLinkError(notes, links, source, target, t).value.AlreadyExists?
  {
  }

  /** Appending a row with a fresh id and an unused triple keeps the table constraints. */
  lemma AppendKeepsKeys(links: seq<StoredLink>, x: StoredLink, bound: nat)
    requires UniqueLinkIds(links) && UniqueTriples(links) && IdsBelow(links, bound)
    requires x.id == bound && !ExistsTriple(links, TripleOf(x))
    ensures var r := links + [x]; UniqueLinkIds(r) && UniqueTriples(r) && IdsBelow(r, bound + 1)
  {
    var r := links + [x];
    forall i, j | 0 <= i < j < |r| ensures TripleOf(r[i]) != TripleOf(r[j]) {
      if j == |links| {
        assert r[i] == links[i];
        assert !HasTriple(links[i], TripleOf(x));
      }
    }
  }

  /** Removing one row keeps the table constraints. */
  lemma RemoveKeepsKeys(links: seq<StoredLink>, i: nat, bound: nat)
    requires UniqueLinkIds(links) && UniqueTriples(links) && IdsBelow(links, bound) && i < |links|
    ensures var r := links[..i] + links[i + 1..]; UniqueLinkIds(r) && UniqueTriples(r) && IdsBelow(r, bound)
  {
    var r := links[..i] + links[i + 1..];
    assert forall a :: 0 <= a < |r| ==> r[a] == links[if a < i then a else a + 1];
  }

  /** Rewriting a row in place, keeping its id, with a triple no other row has, keeps the constraints. */
  lemma ReplaceKeepsKeys(links: seq<StoredLink>, i: nat, x: StoredLink, bound: nat)
    requires UniqueLinkIds(links) && UniqueTriples(links) && IdsBelow(links, bound) && i < |links|
    requires x.id == links[i].id
    requires forall j :: 0 <= j < |links| && j != i ==> TripleOf(links[j]) != TripleOf(x)
    ensures var r := links[i := x]; UniqueLinkIds(r) && UniqueTriples(r) && IdsBelow(r, bound)
  {
  }

  /** createLink(source, target, type, weight): validated, then saved with a new id and not bidirectional. */
  method CreateLink(db: Database, source: NoteId, target: NoteId, t: LinkType, weight: Option<int>)
    returns (r: Result<StoredLink>)
    requires db.Valid()
    modifies db`links, db`nextId
    ensures db.Valid()
    ensures r.Err? <==> CreateLinkError(old(db.notes), old(db.links), source, target, t).Some?
    ensures r.Err? ==> r.error == CreateLinkError(old(db.notes), old(db.links), source, target, t).value
    ensures r.Err? ==> db.links == old(db.links)
    ensures r.Ok? ==> r.value.link == NoteLink(source, target, t, weight, false)
    ensures r.Ok? ==> r.value.id == old(db.nextId) && db.links == old(db.links) + [r.value]
    ensures db.nextId >= old(db.nextId)
  {
    var e := CreateLinkError(db.notes, db.links, source, target, t);
    if e.Some? {
      return Err(e.value);
    }
    var id := db.FreshId();
    var x := StoredLink(id, NoteLink(source, target, t, weight, false));
    AppendKeepsKeys(db.links, x, id);
    db.links := db.links + [x];
    r := Ok(x);
  }

  /** createLink(source, target, type): the four-argument form with the builder's weight of 1. */
  method CreateDefaultLink(db: Database, source: NoteId, target: NoteId, t: LinkType)
    returns (r: Result<StoredLink>)
    requires db.Valid()
    modifies db`links, db`nextId
    ensures db.Valid()
    ensures r.Err? <==> CreateLinkError(old(db.notes), old(db.links), source, target, t).Some?
    ensures r.Err? ==> db.links == old(db.links)
    ensures r.Ok? ==> r.value.link == Build(source, target, t) && db.links == old(db.links) + [r.value]
  {
    r := CreateLink(db, source, target, t, Some(1));
  }

  /**
   * createLink(noteLink): a plain save with no validation of its own. Only
   * the table's unique (source, target, type) key can refuse it.
   */
  method SaveLink(db: Database, l: NoteLink) returns (r: Result<StoredLink>)
    requires db.Valid()
    modifies db`links, db`nextId
    ensures db.Valid()
    ensures r.Err? <==> ExistsTriple(old(db.links), Triple(l.source, l.target, l.linkType))
    ensures r.Err? ==> db.links == old(db.links)
    ensures r.Ok? ==> r.value.link == l && db.links == old(db.links) + [r.value]
  {
    if ExistsTriple(db.links, Triple(l.source, l.target, l.linkType)) {
      return Err(AlreadyExists("Link between notes with this type"));
    }
    var id := db.FreshId();
    var x := StoredLink(id, l);
    AppendKeepsKeys(db.links, x, id);
    db.links := db.links + [x];
    r := Ok(x);
  }

  /** The position of the row with this id, if any. */
  function IndexOfId(links: seq<StoredLink>, id: LinkId): (r: Option<nat>)
    ensures r.Some? ==> r.value < |links| && links[r.value].id == id
    ensures r.None? <==> forall i :: 0 <= i < |links| ==> links[i].id != id
  {
    if |links| == 0 then None
    else if links[0].id == id then Some(0)
    else match IndexOfId(links[1..], id)
      case None => None
      case Some(i) => Some(i + 1)
  }

  /** The position of the row with this triple, if any. */
  function IndexOfTriple(links: seq<StoredLink>, k: Triple): (r: Option<nat>)
    ensures r.Some? ==> r.value < |links| && HasTriple(links[r.value], k)
    ensures r.None? <==> !ExistsTriple(links, k)
  {
    if |links| == 0 then None
    else if HasTriple(links[0], k) then Some(0)
    else match IndexOfTriple(links[1..], k)
      case None => None
      case Some(i) => Some(i + 1)
  }

  /**
   * updateLink: an unknown id is refused; otherwise the row with that id is
   * overwritten in place, unless another row already holds the new triple.
   */
  method UpdateLink(db: Database, x: StoredLink) returns (r: Result<StoredLink>)
    requires db.Valid()
    modifies db`links
    ensures db.Valid()
    ensures IndexOfId(old(db.links), x.id).None? ==> r == Err(NotFound("NoteLink")) && db.links == old(db.links)
    ensures r.Err? ==> db.links == old(db.links)
    ensures r.Ok? <==> (IndexOfId(old(db.links), x.id).Some? &&
      forall j :: 0 <= j < |old(db.links)| && j != IndexOfId(old(db.links), x.id).value ==> TripleOf(old(db.links)[j]) != TripleOf(x))
    ensures r.Ok? ==> r.value == x
    ensures r.Ok? ==> db.links == old(db.links)[IndexOfId(old(db.links), x.id).value := x]
  {
    var i := IndexOfId(db.links, x.id);
    if i.None? {
      return Err(NotFound("NoteLink"));
    }
    if j :| 0 <= j < |db.links| && j != i.value && TripleOf(db.links[j]) == TripleOf(x) {
      return Err(AlreadyExists("Link between notes with this type"));
    }
    ReplaceKeepsKeys(db.links, i.value, x, db.nextId);
    db.links := db.links[i.value := x];
    r := Ok(x);
  }

  /** after is before without its row at index i. */
  predicate RemovedAt(before: seq<StoredLink>, after: seq<StoredLink>, i: int)
  {
    0 <= i < |before| && after == before[..i] + before[i + 1..]
  }

  /** deleteLink(id): an unknown id is refused; otherwise exactly that row goes. */
  method DeleteLinkById(db: Database, id: LinkId) returns (r: Result<()>)
    requires db.Valid()
    modifies db`links
    ensures db.Valid()
    ensures r.Err? <==> forall i :: 0 <= i < |old(db.links)| ==> old(db.links)[i].id != id
    ensures r.Err? ==> db.links == old(db.links)
    ensures r.Ok? ==> exists i :: RemovedAt(old(db.links), db.links, i) && old(db.links)[i].id == id
    ensures forall i :: 0 <= i < |db.links| ==> db.links[i].id != id
  {
    var i := IndexOfId(db.links, id);
    if i.None? {
      return Err(NotFound("NoteLink"));
    }
    RemoveKeepsKeys(db.links, i.value, db.nextId);
    db.links := db.links[..i.value] + db.links[i.value + 1..];
    r := Ok(());
  }

  /** deleteLink(source, target, type): a missing link is refused; otherwise exactly that row goes. */
  method DeleteLinkByTriple(db: Database, source: NoteId, target: NoteId, t: LinkType) returns (r: Result<()>)
    requires db.Valid()
    modifies db`links
    ensures db.Valid()
    ensures r.Err? <==> !ExistsTriple(old(db.links), Triple(source, target, t))
    ensures r.Err? ==> db.links == old(db.links)
    ensures r.Ok? ==> exists i :: RemovedAt(old(db.links), db.links, i) && HasTriple(old(db.links)[i], Triple(source, target, t))
    ensures !ExistsTriple(db.links, Triple(source, target, t))
  {
    var i := IndexOfTriple(db.links, Triple(source, target, t));
    if i.None? {
      return Err(NotFound("Link"));
    }
    RemoveKeepsKeys(db.links, i.value, db.nextId);
    var rest := db.links[..i.value] + db.links[i.value + 1..];
    forall j | 0 <= j < |rest| ensures !HasTriple(rest[j], Triple(source, target, t)) {
      var k := if j < i.value then j else j + 1;
      assert rest[j] == db.links[k];
    }
    db.links := rest;
    r := Ok(());
  }

  /** linkExists. */
  predicate LinkExists(db: Database, source: NoteId, target: NoteId, t: LinkType)
    reads db
  {
    ExistsTriple(db.links, Triple(source, target, t))
  }

  /** CreateLink's acceptance, restated over the inputs. */
  predicate CanCreate(notes: map<NoteId, Note>, links: seq<StoredLink>, source: NoteId, target: NoteId, t: LinkType)
  {
    CreateLinkError(notes, links, source, target, t).None?
  }

  /** Both directions can be created: the reverse one only matters for a type with another inverse. */
  predicate CanCreateBoth(notes: map<NoteId, Note>, links: seq<StoredLink>, a: NoteId, b: NoteId, t: LinkType)
  {
    CanCreate(notes, links, a, b, t) && (Inverse(t) != t ==> !ExistsTriple(links, Triple(b, a, Inverse(t))))
  }

  /** after adds the forward link and the reverse link of the inverse type. */
  predicate AddedPair(before: seq<StoredLink>, after: seq<StoredLink>, a: NoteId, b: NoteId, t: LinkType, weight: Option<int>)
  {
    |after| == |before| + 2 && after[..|before|] == before
    && after[|before|].link == NoteLink(a, b, t, weight, false)
    && after[|before| + 1].link == NoteLink(b, a, Inverse(t), weight, false)
  }

  /** after adds the forward link alone, flagged bidirectional. */
  predicate AddedFlagged(before: seq<StoredLink>, after: seq<StoredLink>, a: NoteId, b: NoteId, t: LinkType, weight: Option<int>)
  {
    |after| == |before| + 1 && after[..|before|] == before
    && after[|before|].link == NoteLink(a, b, t, weight, true)
  }

  lemma ExistsTripleAppend(links: seq<StoredLink>, x: StoredLink, k: Triple)
    ensures ExistsTriple(links + [x], k) <==> ExistsTriple(links, k) || HasTriple(x, k)
  {
    var r := links + [x];
    if ExistsTriple(links, k) {
      var i :| 0 <= i < |links| && HasTriple(links[i], k);
      assert r[i] == links[i];
    }
    if ExistsTriple(r, k) {
      var i :| 0 <= i < |r| && HasTriple(r[i], k);
      if i < |links| { assert r[i] == links[i]; }
    }
    if HasTriple(x, k) {
      assert r[|links|] == x;
    }
  }

  lemma IdsBelowGrow(links: seq<StoredLink>, a: nat, b: nat)
    requires IdsBelow(links, a) && a <= b
    ensures IdsBelow(links, b)
  {
  }

  /** Sets the bidirectional flag on the row at index k; nothing else changes. */
  method SetBidirectional(db: Database, k: nat)
    requires db.Valid() && k < |db.links|
    modifies db`links
    ensures db.Valid()
    ensures |db.links| == |old(db.links)| && db.links[..k] == old(db.links)[..k]
    ensures db.links[k] == old(db.links)[k].(link := old(db.links)[k].link.(isBidirectional := true))
    ensures db.links[k + 1..] == old(db.links)[k + 1..]
  {
    var flagged := StoredLink(db.links[k].id, db.links[k].link.(isBidirectional := true));
    ReplaceKeepsKeys(db.links, k, flagged, db.nextId);
    db.links := db.links[k := flagged];
  }

  /**
   * The second half of createBidirectionalLink for a type with a different
   * inverse: creates the reverse link, and on failure rolls the link table
   * back to before the forward link.
   */
  method AddReverseLink(db: Database, a: NoteId, b: NoteId, t: LinkType, weight: Option<int>, before: seq<StoredLink>)
    returns (r: Result<()>)
    requires db.Valid() && Inverse(t) != t
    requires a in db.notes && b in db.notes && a != b
    requires |db.links| == |before| + 1 && db.links[..|before|] == before
    requires db.links[|before|].link == NoteLink(a, b, t, weight, false)
    requires UniqueLinkIds(before) && UniqueTriples(before) && IdsBelow(before, db.nextId)
    modifies db`links, db`nextId
    ensures db.Valid()
    ensures r.Ok? <==> !ExistsTriple(before, Triple(b, a, Inverse(t)))
    ensures r.Err? ==> db.links == before
    ensures r.Ok? ==> AddedPair(before, db.links, a, b, t, weight)
  {
    var first := db.links[|before|];
    assert db.links == before + [first];
    ExistsTripleAppend(before, first, Triple(b, a, Inverse(t)));
    ghost var id0 := db.nextId;
    var second := CreateLink(db, b, a, Inverse(t), weight);
    if second.Err? {
      IdsBelowGrow(before, id0, db.nextId);
      db.links := before;
      return Err(second.error);
    }
    r := Ok(());
  }

  /** The second half for a type that is its own inverse: flags the forward link, found again by its triple. */
  method FlagForwardLink(db: Database, a: NoteId, b: NoteId, t: LinkType, weight: Option<int>, ghost before: seq<StoredLink>)
    requires db.Valid()
    requires |db.links| == |before| + 1 && db.links[..|before|] == before
    requires db.links[|before|].link == NoteLink(a, b, t, weight, false)
    modifies db`links
    ensures db.Valid()
    ensures AddedFlagged(before, db.links, a, b, t, weight)
  {
    var k := IndexOfTriple(db.links, Triple(a, b, t));
    assert HasTriple(db.links[|before|], Triple(a, b, t));
    assert k.Some? && k.value == |before|;
    SetBidirectional(db, k.value);
  }

  /**
   * createBidirectionalLink, one transaction. The forward link is created;
   * if the type has a different inverse, the reverse link with the inverse
   * type follows, and its failure rolls the forward link back. A type that is
   * its own inverse instead gets the bidirectional flag on the forward link.
   */
  method CreateBidirectionalLink(db: Database, a: NoteId, b: NoteId, t: LinkType, weight: Option<int>)
    returns (r: Result<()>)
    requires db.Valid()
    modifies db`links, db`nextId
    ensures db.Valid()
    ensures r.Ok? <==> CanCreateBoth(old(db.notes), old(db.links), a, b, t)
    ensures r.Err? ==> db.links == old(db.links)
    ensures r.Ok? && Inverse(t) != t ==> AddedPair(old(db.links), db.links, a, b, t, weight)
    ensures r.Ok? && Inverse(t) == t ==> AddedFlagged(old(db.links), db.links, a, b, t, weight)
  {
    var before := db.links;
    var first := CreateLink(db, a, b, t, weight);
    if first.Err? {
      return Err(first.error);
    }
    IdsBelowGrow(before, old(db.nextId), db.nextId);
    assert db.links[..|before|] == before;
    if Inverse(t) != t {
      r := AddReverseLink(db, a, b, t, weight, before);
    } else {
      FlagForwardLink(db, a, b, t, weight, before);
      r := Ok(());
    }
  }
}
