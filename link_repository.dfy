// The link table's finders, counts and analytics, and its two bulk deletes.
// A finder keeps the rows of the table that match, in table order.
module LinkRepository {
  import opened Wrappers
  import opened Ids
  import opened LinkTypes
  import opened NoteLinks
  import opened Notes
  import opened Groups
  import opened Store
  import Sorting
  import Seqs

  function Where(links: seq<StoredLink>, keep: NoteLink -> bool): (r: seq<StoredLink>)
    ensures forall x :: x in r <==> x in links && keep(x.link)
    ensures |r| <= |links|
  {
    if |links| == 0 then []
    else (if keep(links[0].link) then [links[0]] else []) + Where(links[1..], keep)
  }

  /** Filtering keeps table order: it distributes over concatenation. */
  lemma {:induction false} WhereAppend(a: seq<StoredLink>, b: seq<StoredLink>, keep: NoteLink -> bool)
    ensures Where(a + b, keep) == Where(a, keep) + Where(b, keep)
    decreases |a|
  {
    if |a| == 0 {
      assert a + b == b;
    } else {
      var head: seq<StoredLink> := if keep(a[0].link) then [a[0]] else [];
      assert (a + b)[0] == a[0] && (a + b)[1..] == a[1..] + b;
      assert Where(a + b, keep) == head + Where(a[1..] + b, keep);
      WhereAppend(a[1..], b, keep);
      Seqs.AppendAssoc(head, Where(a[1..], keep), Where(b, keep));
    }
  }

  lemma {:induction false} WhereNone(links: seq<StoredLink>, keep: NoteLink -> bool)
    requires forall x :: x in links ==> !keep(x.link)
    ensures Where(links, keep) == []
    decreases |links|
  {
    if |links| > 0 {
      assert links[0] in links;
      assert forall x :: x in links[1..] ==> x in links;
      WhereNone(links[1..], keep);
    }
  }

  /** findBySourceNoteId and findOutgoingLinks. */
  function Outgoing(links: seq<StoredLink>, n: NoteId): seq<StoredLink>
  {
    Where(links, (l: NoteLink) => l.source == n)
  }

  /** findByTargetNoteId and findIncomingLinks. */
  function Incoming(links: seq<StoredLink>, n: NoteId): seq<StoredLink>
  {
    Where(links, (l: NoteLink) => l.target == n)
  }

  function OfType(links: seq<StoredLink>, t: LinkType): seq<StoredLink>
  {
    Where(links, (l: NoteLink) => l.linkType == t)
  }

  /** findAllLinksForNote: the links with the note at either end. */
  function ForNote(links: seq<StoredLink>, n: NoteId): seq<StoredLink>
  {
    Where(links, (l: NoteLink) => Involves(l, n))
  }

  function ForNoteOfType(links: seq<StoredLink>, n: NoteId, t: LinkType): seq<StoredLink>
  {
    Where(links, (l: NoteLink) => Involves(l, n) && l.linkType == t)
  }

  function BidirectionalLinks(links: seq<StoredLink>): seq<StoredLink>
  {
    Where(links, (l: NoteLink) => l.isBidirectional)
  }

  /** findByWeightGreaterThanEqual: a null weight never satisfies the comparison. */
  function WeightAtLeast(links: seq<StoredLink>, min: int): seq<StoredLink>
  {
    Where(links, (l: NoteLink) => l.weight.Some? && l.weight.value >= min)
  }

  /** findByWeightRange: BETWEEN is inclusive at both ends and excludes a null weight. */
  function WeightBetween(links: seq<StoredLink>, min: int, max: int): seq<StoredLink>
  {
    Where(links, (l: NoteLink) => l.weight.Some? && min <= l.weight.value <= max)
  }

  lemma WeightFilters(links: seq<StoredLink>, min: int, max: int, x: StoredLink)
    ensures x in WeightBetween(links, min, max) <==>
      x in WeightAtLeast(links, min) && x in links && x.link.weight.value <= max
    ensures x in links && x.link.weight.None? ==> x !in WeightAtLeast(links, min) && x !in WeightBetween(links, min, max)
  {
  }

  /** findSimilarLinks: same endpoints, another type. */
  function SimilarLinks(links: seq<StoredLink>, s: NoteId, t: NoteId, exclude: LinkType): seq<StoredLink>
  {
    Where(links, (l: NoteLink) => l.source == s && l.target == t && l.linkType != exclude)
  }

  predicate HasTriple(l: StoredLink, k: Triple)
  {
    TripleOf(l) == k
  }

  /** findBySourceNoteIdAndTargetNoteIdAndLinkType. */
  function FindByTriple(links: seq<StoredLink>, k: Triple): (r: Option<StoredLink>)
    ensures r.Some? ==> r.value in links && HasTriple(r.value, k)
    ensures r.None? <==> forall i :: 0 <= i < |links| ==> !HasTriple(links[i], k)
  {
    if |links| == 0 then None
    else if HasTriple(links[0], k) then Some(links[0])
    else
      var r := FindByTriple(links[1..], k);
      assert forall i :: 1 <= i < |links| ==> links[i] == links[1..][i - 1];
      r
  }

  /** existsBySourceNoteIdAndTargetNoteIdAndLinkType. */
  predicate ExistsTriple(links: seq<StoredLink>, k: Triple)
  {
    exists i :: 0 <= i < |links| && HasTriple(links[i], k)
  }

  predicate ExistsBetween(links: seq<StoredLink>, s: NoteId, t: NoteId)
  {
    exists i :: 0 <= i < |links| && links[i].link.source == s && links[i].link.target == t
  }

  /** Under the unique key, the finder returns the one row with that triple. */
  lemma FindByTripleUnique(links: seq<StoredLink>, k: Triple, i: nat)
    requires UniqueTriples(links) && i < |links| && HasTriple(links[i], k)
    ensures FindByTriple(links, k) == Some(links[i])
  {
    var r := FindByTriple(links, k);
    var j :| 0 <= j < |links| && links[j] == r.value;
    assert i == j;
  }

  /** findRelatedNotesByTypes: the distinct targets of the note's outgoing links of the listed types. */
  function RelatedNotesByTypes(links: seq<StoredLink>, n: NoteId, types: seq<LinkType>): set<NoteId>
  {
    set i | 0 <= i < |links| && links[i].link.source == n && links[i].link.linkType in types :: links[i].link.target
  }

  /** countLinksForNote: each link with the note at either end counts once. */
  function CountLinksForNote(links: seq<StoredLink>, n: NoteId): nat
  {
    |ForNote(links, n)|
  }

  /** getLinkTypeStatistics: the number of links of each type that occurs. */
  function LinkTypeStatistics(links: seq<StoredLink>): (r: map<LinkType, nat>)
    ensures forall t :: t in r <==> exists i :: 0 <= i < |links| && links[i].link.linkType == t
    ensures forall t :: t in r ==> r[t] == |OfType(links, t)| && r[t] > 0
  {
    var types := set i | 0 <= i < |links| :: links[i].link.linkType;
    forall t | t in types ensures |OfType(links, t)| > 0 {
      var i :| 0 <= i < |links| && links[i].link.linkType == t;
      OccursOfType(links, i);
    }
    map t | t in types :: |OfType(links, t)|
  }

  lemma OccursOfType(links: seq<StoredLink>, i: nat)
    requires i < |links|
    ensures links[i] in OfType(links, links[i].link.linkType)
  {
    assert links[i] in links;
  }

  /** The hub score of findMostConnectedNotes: links leaving plus links arriving. */
  function Degree(links: seq<StoredLink>, n: NoteId): int
  {
    |Outgoing(links, n)| + |Incoming(links, n)|
  }

  /** Every note that is the source or target of some link. */
  function Endpoints(links: seq<StoredLink>): set<NoteId>
  {
    (set i | 0 <= i < |links| :: links[i].link.source) + (set i | 0 <= i < |links| :: links[i].link.target)
  }

  lemma {:induction false} DegreePositive(links: seq<StoredLink>, n: NoteId)
    ensures n in Endpoints(links) <==> Degree(links, n) > 0
  {
    if n in Endpoints(links) {
      var i :| 0 <= i < |links| && (links[i].link.source == n || links[i].link.target == n);
      assert links[i] in Outgoing(links, n) || links[i] in Incoming(links, n);
    }
    if Degree(links, n) > 0 {
      if |Outgoing(links, n)| > 0 {
        assert Outgoing(links, n)[0] in Outgoing(links, n);
      } else {
        assert Incoming(links, n)[0] in Incoming(links, n);
      }
    }
  }

  /** findMostConnectedNotes: the linked notes by descending degree, at most limit of them. */
  function MostConnected(links: seq<StoredLink>, limit: nat): seq<NoteId>
  {
    Sorting.Take(Sorting.SortDesc(Sorting.Ascending(Endpoints(links)), (n: NoteId) => Degree(links, n)), limit)
  }

  /**
   * At most limit distinct notes, each with at least one link, in
   * non-increasing degree; a linked note left out means the list is full and
   * every listed note has at least its degree.
   */
  lemma MostConnectedSpec(links: seq<StoredLink>, limit: nat)
    ensures var r := MostConnected(links, limit);
      |r| <= limit
      && (forall i, j :: 0 <= i < j < |r| ==> r[i] != r[j])
      && (forall i :: 0 <= i < |r| ==> Degree(links, r[i]) > 0)
      && Sorting.SortedDesc(r, (n: NoteId) => Degree(links, n))
      && forall n :: n in Endpoints(links) && n !in r ==>
           |r| == limit && forall i :: 0 <= i < |r| ==> Degree(links, r[i]) >= Degree(links, n)
  {
    var key := (n: NoteId) => Degree(links, n);
    var asc := Sorting.Ascending(Endpoints(links));
    var sorted := Sorting.SortDesc(asc, key);
    var r := Sorting.Take(sorted, limit);
    Sorting.TakeSorted(sorted, limit, key);
    Sorting.PermutationDistinct(asc, sorted);
    assert forall x :: x in sorted <==> x in Endpoints(links) by {
      forall x ensures x in sorted <==> x in Endpoints(links) {
        assert x in sorted <==> x in multiset(sorted);
        assert x in asc <==> x in multiset(asc);
      }
    }
    forall i | 0 <= i < |r| ensures Degree(links, r[i]) > 0 {
      assert r[i] == sorted[i];
      DegreePositive(links, r[i]);
    }
    forall n | n in Endpoints(links) && n !in r
      ensures |r| == limit && forall i :: 0 <= i < |r| ==> Degree(links, r[i]) >= Degree(links, n)
    {
      Sorting.TakeLeavesOutSmaller(sorted, limit, key, n);
    }
  }

  /** One entry of a grouped SELECT list: a plain column, or SUM over a column. */
  datatype SelectItem = Column(name: string) | Sum(column: string)

  /**
   * The rule PostgreSQL applies to a grouped query: every plain column of the
   * select list is one of the GROUP BY columns (aggregates may name any column).
   */
  predicate GroupedSelectValid(select: seq<SelectItem>, groupBy: set<string>)
  {
    forall i :: 0 <= i < |select| ==> select[i].Column? ==> select[i].name in groupBy
  }

  /** The outer query of findMostConnectedNotes groups the union by note_id. */
  const MostConnectedGroupBy: set<string> := {"note_id"}

  /** The select list as written: note_id and the per-branch link_count. */
  const MostConnectedSelectAsWritten: seq<SelectItem> := [Column("note_id"), Column("link_count")]

  /** The select list the ORDER BY SUM(link_count) ranks by. */
  const MostConnectedSelectIntended: seq<SelectItem> := [Column("note_id"), Sum("link_count")]

  /**
   * findMostConnectedNotes run with a given select list: the database refuses
   * the statement when the list is not valid for the grouping, and otherwise
   * ranks the notes by their summed link counts.
   */
  function MostConnectedQuery(select: seq<SelectItem>, links: seq<StoredLink>, limit: nat): (r: Result<seq<NoteId>>)
    ensures r.Err? <==> !GroupedSelectValid(select, MostConnectedGroupBy)
    ensures r.Ok? ==> r.value == MostConnected(links, limit)
  {
    if GroupedSelectValid(select, MostConnectedGroupBy) then Ok(MostConnected(links, limit))
    else Err(Rejected("column link_count must appear in the GROUP BY clause or be used in an aggregate function"))
  }

  /**
   * findMostConnectedNotes as written: link_count is selected but neither
   * grouped nor aggregated, so every call is refused, even on an empty table.
   */
  function MostConnectedAsWritten(links: seq<StoredLink>, limit: nat): (r: Result<seq<NoteId>>)
    ensures r.Err? && r.error.Rejected?
  {
    assert !MostConnectedSelectAsWritten[1].Column? || MostConnectedSelectAsWritten[1].name !in MostConnectedGroupBy;
    MostConnectedQuery(MostConnectedSelectAsWritten, links, limit)
  }

  /** findMostConnectedNotes as intended: the degree ranking of MostConnectedSpec. */
  function MostConnectedIntended(links: seq<StoredLink>, limit: nat): (r: Result<seq<NoteId>>)
    ensures r.Ok? && r.value == MostConnected(links, limit)
  {
    MostConnectedQuery(MostConnectedSelectIntended, links, limit)
  }

  /** findOrphanedNotes: the stored notes that are no link's source or target. */
  function OrphanedNotes(notes: map<NoteId, Note>, links: seq<StoredLink>): set<NoteId>
  {
    set n | n in notes && n !in Endpoints(links)
  }

  lemma OrphanedIffNoLinks(notes: map<NoteId, Note>, links: seq<StoredLink>, n: NoteId)
    ensures n in OrphanedNotes(notes, links) <==> n in notes && CountLinksForNote(links, n) == 0
  {
    DegreePositive(links, n);
    if n in notes && CountLinksForNote(links, n) > 0 {
      assert ForNote(links, n)[0] in ForNote(links, n);
    }
    if n in notes && n in Endpoints(links) {
      var i :| 0 <= i < |links| && Involves(links[i].link, n);
      assert links[i] in ForNote(links, n);
    }
  }

  /** The outgoing and incoming link sets the note entity holds for n. */
  function LinkSetsOf(links: seq<StoredLink>, n: NoteId): (r: LinkSets)
    ensures forall x :: x in r.outgoing <==> x in links && x.link.source == n
    ensures forall x :: x in r.incoming <==> x in links && x.link.target == n
  {
    LinkSets(set x | x in links && x.link.source == n, set x | x in links && x.link.target == n)
  }

  /** The entity's orphan test agrees with the table-wide one. */
  lemma EntityOrphanAgrees(notes: map<NoteId, Note>, links: seq<StoredLink>, n: NoteId)
    requires n in notes
    ensures IsOrphaned(LinkSetsOf(links, n)) <==> n in OrphanedNotes(notes, links)
  {
    var s := LinkSetsOf(links, n);
    if n in Endpoints(links) {
      var i :| 0 <= i < |links| && (links[i].link.source == n || links[i].link.target == n);
      assert links[i] in s.outgoing || links[i] in s.incoming;
    }
    if !IsOrphaned(s) {
      if |s.outgoing| > 0 {
        var x :| x in s.outgoing;
        var i :| 0 <= i < |links| && links[i] == x;
        assert links[i].link.source == n;
      } else {
        var x :| x in s.incoming;
        var i :| 0 <= i < |links| && links[i] == x;
        assert links[i].link.target == n;
      }
    }
  }

  // ---------------------------------------------------------------------
  // Group-scoped subgraphs. "Including subgroups" admits the group's direct
  // children and nothing deeper.

  predicate InGroup(notes: map<NoteId, Note>, n: NoteId, g: GroupId)
  {
    n in notes && notes[n].group == Some(g)
  }

  predicate InGroupOrChild(groups: GroupTable, notes: map<NoteId, Note>, n: NoteId, g: GroupId)
  {
    n in notes && notes[n].group.Some?
    && (notes[n].group.value == g || notes[n].group.value in SubGroups(groups, g))
  }

  /** findLinksWithinGroup. */
  function LinksWithinGroup(notes: map<NoteId, Note>, links: seq<StoredLink>, g: GroupId): seq<StoredLink>
  {
    Where(links, (l: NoteLink) => InGroup(notes, l.source, g) && InGroup(notes, l.target, g))
  }

  /** findLinksWithinGroupIncludingSubGroups. */
  function LinksWithinGroupTree(groups: GroupTable, notes: map<NoteId, Note>, links: seq<StoredLink>, g: GroupId): seq<StoredLink>
  {
    Where(links, (l: NoteLink) => InGroupOrChild(groups, notes, l.source, g) && InGroupOrChild(groups, notes, l.target, g))
  }

  /**
   * The subgroup variant widens the plain one, but a link touching a note
   * two levels down (in a child of a child) is still excluded.
   */
  lemma GroupScopes(groups: GroupTable, notes: map<NoteId, Note>, links: seq<StoredLink>, g: GroupId, x: StoredLink)
    ensures x in LinksWithinGroup(notes, links, g) ==> x in LinksWithinGroupTree(groups, notes, links, g)
  {
  }

  /** A link from a note in a grandchild of g is outside the subgroup-inclusive scope. */
  lemma GrandchildExcluded(groups: GroupTable, notes: map<NoteId, Note>, links: seq<StoredLink>, g: GroupId,
                           child: GroupId, grandchild: GroupId, x: StoredLink)
    requires child in groups && groups[child].parent == Some(g) && child != g
    requires grandchild in groups && groups[grandchild].parent == Some(child) && grandchild != g
    requires x.link.source in notes && notes[x.link.source].group == Some(grandchild)
    ensures x !in LinksWithinGroupTree(groups, notes, links, g)
  {
  }

  /** Some link joins n to a note of g, in either direction. */
  predicate LinkedInGroup(notes: map<NoteId, Note>, links: seq<StoredLink>, n: NoteId, g: GroupId)
  {
    exists i :: 0 <= i < |links| && ((links[i].link.source == n && InGroup(notes, links[i].link.target, g))
      || (links[i].link.target == n && InGroup(notes, links[i].link.source, g)))
  }

  predicate LinkedInGroupTree(groups: GroupTable, notes: map<NoteId, Note>, links: seq<StoredLink>, n: NoteId, g: GroupId)
  {
    exists i :: 0 <= i < |links| && ((links[i].link.source == n && InGroupOrChild(groups, notes, links[i].link.target, g))
      || (links[i].link.target == n && InGroupOrChild(groups, notes, links[i].link.source, g)))
  }

  /** findConnectedNotesInGroup: notes of g with a link to or from a note of g, possibly itself. */
  function ConnectedInGroup(notes: map<NoteId, Note>, links: seq<StoredLink>, g: GroupId): set<NoteId>
  {
    set n | n in notes && InGroup(notes, n, g) && LinkedInGroup(notes, links, n, g)
  }

  /** findConnectedNotesInGroupIncludingSubGroups. */
  function ConnectedInGroupTree(groups: GroupTable, notes: map<NoteId, Note>, links: seq<StoredLink>, g: GroupId): set<NoteId>
  {
    set n | n in notes && InGroupOrChild(groups, notes, n, g) && LinkedInGroupTree(groups, notes, links, n, g)
  }

  /** A note connected within its group is an end of a link within that group. */
  lemma ConnectedInGroupHasLink(notes: map<NoteId, Note>, links: seq<StoredLink>, g: GroupId, n: NoteId)
    ensures n in ConnectedInGroup(notes, links, g) <==>
      InGroup(notes, n, g) && exists x :: x in LinksWithinGroup(notes, links, g) && Involves(x.link, n)
  {
    if n in ConnectedInGroup(notes, links, g) {
      var i :| 0 <= i < |links| && ((links[i].link.source == n && InGroup(notes, links[i].link.target, g))
        || (links[i].link.target == n && InGroup(notes, links[i].link.source, g)));
      assert links[i] in LinksWithinGroup(notes, links, g);
    }
    if InGroup(notes, n, g) && exists x :: x in LinksWithinGroup(notes, links, g) && Involves(x.link, n) {
      var x :| x in LinksWithinGroup(notes, links, g) && Involves(x.link, n);
      var i :| 0 <= i < |links| && links[i] == x;
      assert links[i].link.source == n || links[i].link.target == n;
    }
  }

  // ---------------------------------------------------------------------
  // Bulk deletes.

  /** deleteAllLinksForNote: every link with the note at either end goes, the rest stay in order. */
  method DeleteAllLinksForNote(db: Database, n: NoteId)
    requires db.Valid()
    modifies db`links
    ensures db.Valid()
    ensures db.links == Where(old(db.links), (l: NoteLink) => !Involves(l, n))
    ensures ForNote(db.links, n) == []
  {
    db.links := Where(db.links, (l: NoteLink) => !Involves(l, n));
    SubsequenceKeepsKeys(old(db.links), (l: NoteLink) => !Involves(l, n), db.nextId);
    WhereNone(db.links, (l: NoteLink) => Involves(l, n));
  }

  /** deleteAllLinksBetweenNotes: only the links from a to b go; links from b to a stay. */
  method DeleteAllLinksBetween(db: Database, a: NoteId, b: NoteId)
    requires db.Valid()
    modifies db`links
    ensures db.Valid()
    ensures db.links == Where(old(db.links), (l: NoteLink) => !(l.source == a && l.target == b))
    ensures !ExistsBetween(db.links, a, b)
    ensures forall x :: x in old(db.links) && x.link.source == b && x.link.target == a && a != b ==> x in db.links
  {
    db.links := Where(db.links, (l: NoteLink) => !(l.source == a && l.target == b));
    SubsequenceKeepsKeys(old(db.links), (l: NoteLink) => !(l.source == a && l.target == b), db.nextId);
  }

  /** Filtering keeps the table's unique keys and identifier bound. */
  lemma {:induction false} SubsequenceKeepsKeys(links: seq<StoredLink>, keep: NoteLink -> bool, bound: nat)
    requires UniqueLinkIds(links) && UniqueTriples(links) && IdsBelow(links, bound)
    ensures var r := Where(links, keep); UniqueLinkIds(r) && UniqueTriples(r) && IdsBelow(r, bound)
    decreases |links|
  {
    if |links| > 0 {
      var rest := Where(links[1..], keep);
      TailKeepsKeys(links, bound);
      SubsequenceKeepsKeys(links[1..], keep, bound);
      if keep(links[0].link) {
        forall x | x in rest ensures x.id != links[0].id && TripleOf(x) != TripleOf(links[0]) {
          var i :| 0 <= i < |links[1..]| && links[1..][i] == x;
          assert links[i + 1] == x;
        }
        ConsKeepsKeys(links[0], rest, bound);
        assert Where(links, keep) == [links[0]] + rest;
      } else {
        assert Where(links, keep) == rest;
      }
    }
  }

  /** A table's tail keeps its unique keys and identifier bound. */
  lemma TailKeepsKeys(links: seq<StoredLink>, bound: nat)
    requires |links| > 0
    requires UniqueLinkIds(links) && UniqueTriples(links) && IdsBelow(links, bound)
    ensures UniqueLinkIds(links[1..]) && UniqueTriples(links[1..]) && IdsBelow(links[1..], bound)
  {
    var t := links[1..];
    forall i, j | 0 <= i < j < |t| ensures t[i].id != t[j].id && TripleOf(t[i]) != TripleOf(t[j]) {
      assert t[i] == links[i + 1] && t[j] == links[j + 1];
    }
    forall i | 0 <= i < |t| ensures t[i].id < bound {
      assert t[i] == links[i + 1];
    }
  }

  /** A row whose id and triple differ from every row of a table can go in front of it. */
  lemma ConsKeepsKeys(x: StoredLink, rest: seq<StoredLink>, bound: nat)
    requires UniqueLinkIds(rest) && UniqueTriples(rest) && IdsBelow(rest, bound) && x.id < bound
    requires forall y :: y in rest ==> y.id != x.id && TripleOf(y) != TripleOf(x)
    ensures UniqueLinkIds([x] + rest) && UniqueTriples([x] + rest) && IdsBelow([x] + rest, bound)
  {
    var r := [x] + rest;
    forall i, j | 0 <= i < j < |r| ensures r[i].id != r[j].id && TripleOf(r[i]) != TripleOf(r[j]) {
      assert r[j] == rest[j - 1];
      if i > 0 {
        assert r[i] == rest[i - 1];
      } else {
        assert rest[j - 1] in rest;
      }
    }
    forall i | 0 <= i < |r| ensures r[i].id < bound {
      if i > 0 {
        assert r[i] == rest[i - 1];
      }
    }
  }
}
