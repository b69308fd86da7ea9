// The graph page's data: which notes are shown, which links join them,
// and the size, stroke and colour rules for nodes and edges.
module GraphView {
  import opened Wrappers
  import opened Ids
  import opened Notes
  import opened Tags
  import opened Groups
  import opened NoteLinks
  import Strings
  import LinkRepository
  import NoteRepository
  import NoteService
  import GroupService
  import Seqs

  /** The size of a node with the given number of links. */
  function NodeSize(linkCount: nat): (r: int)
    ensures 15 <= r <= 60
    ensures linkCount <= 5 ==> r == 15 + 8 * linkCount
    ensures linkCount >= 6 ==> r == 60
  {
    var scaled := 15 + linkCount * 8;
    var capped := if scaled < 60 then scaled else 60;
    if capped > 15 then capped else 15
  }

  /** More links never give a smaller node. */
  lemma NodeSizeMonotone(a: nat, b: nat)
    requires a <= b
    ensures NodeSize(a) <= NodeSize(b)
  {
  }

  /** Java's int division, which truncates toward zero. */
  function JavaDiv(a: int, b: int): (q: int)
    requires b > 0
    ensures a >= 0 ==> q == a / b
    ensures a < 0 ==> q == -((-a) / b)
  {
    if a >= 0 then a / b else -((-a) / b)
  }

  /** The stroke width of an edge with a weight. */
  function StrokeWidth(weight: int): (r: int)
    ensures r >= 1
    ensures weight >= 2 ==> r == weight / 2
    ensures weight < 4 ==> r == 1
  {
    var half := JavaDiv(weight, 2);
    if half > 1 then half else 1
  }

  /** A heavier edge is never drawn thinner. */
  lemma StrokeWidthMonotone(a: int, b: int)
    requires a <= b
    ensures StrokeWidth(a) <= StrokeWidth(b)
  {
  }

  const DefaultSourceColor := "#17a2b8"

  /** The colour of a note's source; an unknown source gets the teal default. */
  function SourceColor(source: string): (r: string)
    ensures source !in {"BOOKMARK", "CONFLUENCE", "GITHUB_PROJECT", "ONEDRIVE", "WEB", "MANUAL"} ==> r == DefaultSourceColor
    ensures source == "MANUAL" ==> r == DefaultColor
    ensures |r| == 7 && r[0] == '#'
  {
    match source
    case "BOOKMARK" => "#ffc107"
    case "CONFLUENCE" => "#0052cc"
    case "GITHUB_PROJECT" => "#24292f"
    case "ONEDRIVE" => "#0078d4"
    case "WEB" => "#28a745"
    case "MANUAL" => "#6c757d"
    case _ => DefaultSourceColor
  }

  /** A rendered node: its id, title, link count, size and the fixed grey colour. */
  datatype GraphNode = GraphNode(id: NoteId, title: string, linkCount: nat, size: int, color: string)

  /** A rendered edge: the link's fields and its stroke width. */
  datatype GraphEdge = GraphEdge(id: LinkId, source: NoteId, target: NoteId, linkType: LinkTypes.LinkType,
                                 weight: int, bidirectional: bool, strokeWidth: int)

  function NodeOf(notes: map<NoteId, Note>, links: seq<StoredLink>, n: NoteId): (r: GraphNode)
    requires n in notes
    ensures r.id == n && r.title == notes[n].title && r.color == DefaultColor
    ensures r.linkCount == LinkRepository.CountLinksForNote(links, n) && 15 <= r.size <= 60
  {
    var count := LinkRepository.CountLinksForNote(links, n);
    GraphNode(n, notes[n].title, count, NodeSize(count), DefaultColor)
  }

  /** The nodes in the order of the note list. */
  function Nodes(notes: map<NoteId, Note>, links: seq<StoredLink>, ids: seq<NoteId>): (r: seq<GraphNode>)
    requires forall n :: n in ids ==> n in notes
    ensures |r| == |ids|
    ensures forall i :: 0 <= i < |r| ==> r[i] == NodeOf(notes, links, ids[i])
  {
    if |ids| == 0 then [] else [NodeOf(notes, links, ids[0])] + Nodes(notes, links, ids[1..])
  }

  /** An edge; a link without a weight cannot be rendered (the unboxing fails). */
  function EdgeOf(l: StoredLink): (r: Option<GraphEdge>)
    ensures r.Some? <==> l.link.weight.Some?
    ensures r.Some? ==> r.value.strokeWidth == StrokeWidth(l.link.weight.value) >= 1
    ensures r.Some? ==> r.value.source == l.link.source && r.value.target == l.link.target && r.value.id == l.id
  {
    match l.link.weight
    case None => None
    case Some(w) => Some(GraphEdge(l.id, l.link.source, l.link.target, l.link.linkType, w, l.link.isBidirectional, StrokeWidth(w)))
  }

  /** The edges, or nothing when some link has no weight. */
  function Edges(links: seq<StoredLink>): (r: Option<seq<GraphEdge>>)
    ensures r.Some? <==> forall l :: l in links ==> l.link.weight.Some?
    ensures r.Some? ==> |r.value| == |links| && forall i :: 0 <= i < |links| ==> Some(r.value[i]) == EdgeOf(links[i])
  {
    if |links| == 0 then Some([])
    else
      var head := EdgeOf(links[0]);
      var tail := Edges(links[1..]);
      assert forall l :: l in links <==> l == links[0] || l in links[1..];
      if head.Some? && tail.Some? then Some([head.value] + tail.value) else None
  }

  /** The filter that keeps a link with both ends among the shown notes. */
  function BothIn(ns: set<NoteId>): NoteLink -> bool
  {
    (l: NoteLink) => l.source in ns && l.target in ns
  }

  /** getLinksForNotes: the links of the whole table with both ends shown, in table order. */
  function LinksForNotes(links: seq<StoredLink>, ns: set<NoteId>): (r: seq<StoredLink>)
    ensures ns == {} ==> r == []
    ensures forall x :: x in r <==> x in links && x.link.source in ns && x.link.target in ns
  {
    if ns == {} then [] else LinkRepository.Where(links, BothIn(ns))
  }

  /** Showing fewer notes never shows more links, and table order is kept. */
  lemma LinksForNotesShrink(links: seq<StoredLink>, a: set<NoteId>, b: set<NoteId>, rest: seq<StoredLink>)
    requires a <= b
    ensures forall x :: x in LinksForNotes(links, a) ==> x in LinksForNotes(links, b)
    ensures b != {} ==> LinksForNotes(links + rest, b) == LinksForNotes(links, b) + LinksForNotes(rest, b)
  {
    if b != {} {
      LinkRepository.WhereAppend(links, rest, BothIn(b));
    }
  }

  /** The tag names of the filter box: the comma-separated pieces, trimmed, empty ones dropped. */
  function CleanNames(parts: seq<string>): (r: seq<string>)
    ensures |r| <= |parts|
    ensures forall x :: x in r <==> |x| > 0 && exists p :: p in parts && Strings.TrimJava(p) == x
    decreases |parts|
  {
    if |parts| == 0 then []
    else
      var t := Strings.TrimJava(parts[0]);
      assert forall p :: p in parts <==> p == parts[0] || p in parts[1..];
      (if |t| > 0 then [t] else []) + CleanNames(parts[1..])
  }

  function ParseTagNames(s: string): seq<string>
  {
    CleanNames(Strings.Split(s, ','))
  }

  /** Cleaning keeps the order of the pieces. */
  lemma {:induction false} CleanNamesAppend(a: seq<string>, b: seq<string>)
    ensures CleanNames(a + b) == CleanNames(a) + CleanNames(b)
    decreases |a|
  {
    if |a| == 0 {
      assert a + b == b;
    } else {
      var t := Strings.TrimJava(a[0]);
      var head: seq<string> := if |t| > 0 then [t] else [];
      assert (a + b)[0] == a[0] && (a + b)[1..] == a[1..] + b;
      assert CleanNames(a + b) == head + CleanNames(a[1..] + b);
      CleanNamesAppend(a[1..], b);
      Seqs.AppendAssoc(head, CleanNames(a[1..]), CleanNames(b));
    }
  }

  /** Trimming only drops characters from the ends. */
  lemma {:induction false} TrimJavaInside(s: string, c: char)
    requires c in Strings.TrimJava(s)
    ensures c in s
    decreases |s|
  {
    if |s| > 0 && Strings.IsJavaTrimmed(s[0]) {
      TrimJavaInside(s[1..], c);
    } else if |s| > 0 && Strings.IsJavaTrimmed(s[|s| - 1]) {
      TrimJavaInside(s[..|s| - 1], c);
    }
  }

  /** Every parsed tag name is non-empty, trimmed at both ends and free of commas. */
  lemma ParsedNamesClean(s: string, x: string)
    requires x in ParseTagNames(s)
    ensures |x| > 0 && !Strings.IsJavaTrimmed(x[0]) && !Strings.IsJavaTrimmed(x[|x| - 1])
    ensures ',' !in x
  {
    var p :| p in Strings.Split(s, ',') && Strings.TrimJava(p) == x;
    Strings.SplitPiecesLackSep(s, ',', p);
    if ',' in x {
      TrimJavaInside(p, ',');
    }
  }

  /** The group request parameter: empty, not a UUID, or a UUID. */
  datatype GroupArg = NoGroupArg | MalformedGroupArg | GroupUuid(id: GroupId)

  /** getAllNotes: the acting user's notes. */
  function UserNotes(notes: map<NoteId, Note>, user: UserId): (r: set<NoteId>)
    ensures forall n :: n in r <==> NoteRepository.OwnedBy(notes, user, n)
  {
    set n | n in notes && NoteRepository.OwnedBy(notes, user, n)
  }

  /**
   * The group step: a group found by getGroupById, which only finds the
   * acting user's groups, selects its notes; an unknown group, another
   * user's group or a malformed argument shows all the user's notes.
   */
  function ByGroupArg(notes: map<NoteId, Note>, groups: GroupTable, user: UserId, arg: GroupArg, includeSubGroups: bool): (r: set<NoteId>)
    ensures arg.GroupUuid? && GroupService.OwnedGroup(groups, user, arg.id) && includeSubGroups ==> r == NoteRepository.ByGroupAndSubGroups(notes, groups, arg.id)
    ensures arg.GroupUuid? && GroupService.OwnedGroup(groups, user, arg.id) && !includeSubGroups ==> r == NoteRepository.ByUserAndGroup(notes, user, arg.id)
    ensures !(arg.GroupUuid? && GroupService.OwnedGroup(groups, user, arg.id)) ==> r == UserNotes(notes, user)
  {
    match arg
    case GroupUuid(g) =>
      if !GroupService.OwnedGroup(groups, user, g) then UserNotes(notes, user)
      else if includeSubGroups then NoteRepository.ByGroupAndSubGroups(notes, groups, g)
      else NoteRepository.ByUserAndGroup(notes, user, g)
    case _ => UserNotes(notes, user)
  }

  /**
   * getFilteredNotes: the group step, then, when the tag box names at least
   * one tag, the ALL query (filter "all") or the user's ANY query in its
   * place; the two steps are not intersected.
   */
  function FilteredNotes(notes: map<NoteId, Note>, groups: GroupTable, tags: map<TagId, Tag>, rows: seq<NoteTag>,
                         user: UserId, arg: GroupArg, includeSubGroups: bool, tagBox: string, tagFilter: string): (r: set<NoteId>)
    ensures |ParseTagNames(tagBox)| == 0 ==> r == ByGroupArg(notes, groups, user, arg, includeSubGroups)
    ensures |ParseTagNames(tagBox)| > 0 && tagFilter == "all" ==>
      r == NoteService.FindNotesByAllTags(notes, tags, rows, ParseTagNames(tagBox))
    ensures |ParseTagNames(tagBox)| > 0 && tagFilter != "all" ==>
      r == NoteService.FindNotesByAnyTags(notes, tags, rows, user, ParseTagNames(tagBox))
  {
    var byGroup := ByGroupArg(notes, groups, user, arg, includeSubGroups);
    if |tagBox| == 0 then byGroup
    else
      var names := ParseTagNames(tagBox);
      if |names| == 0 then byGroup
      else if tagFilter == "all" then NoteService.FindNotesByAllTags(notes, tags, rows, names)
      else NoteService.FindNotesByAnyTags(notes, tags, rows, user, names)
  }

  /**
   * A tag filter replaces the group filter: with the ALL filter a note of
   * another group, even of another user, is shown when it carries every
   * listed name.
   */
  lemma TagFilterReplacesGroup(notes: map<NoteId, Note>, groups: GroupTable, tags: map<TagId, Tag>, rows: seq<NoteTag>,
                               user: UserId, arg: GroupArg, includeSubGroups: bool, tagBox: string, n: NoteId)
    requires n in notes && Seqs.Distinct(ParseTagNames(tagBox)) && |ParseTagNames(tagBox)| > 0
    requires forall nm :: nm in ParseTagNames(tagBox) ==> nm in NoteRepository.TagNamesOf(tags, rows, n)
    ensures n in FilteredNotes(notes, groups, tags, rows, user, arg, includeSubGroups, tagBox, "all")
  {
    NoteRepository.ByAllTagsSpec(notes, tags, rows, ParseTagNames(tagBox), n);
  }
}
