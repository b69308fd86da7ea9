// Note: the note row, its factories, and the helpers over its mapped link
// and attachment collections.
module Notes {
  import opened Wrappers
  import opened Ids
  import opened LinkTypes
  import opened NoteLinks
  import opened Attachments

  /**
   * A note row. The owner is the user the services attach; createdAt is set
   * on first save. Tags live in the note-tag table and links in the link
   * table.
   */
  datatype Note = Note(
    title: string,
    content: Option<string>,
    owner: Option<UserId>,
    group: Option<GroupId>,
    createdAt: Option<int>,
    attachments: seq<Attachment>)

  function Of(title: string, content: string): (n: Note)
    ensures n.title == title && n.content == Some(content)
    ensures n.owner.None? && n.group.None? && n.createdAt.None? && n.attachments == []
  {
    Note(title, Some(content), None, None, None, [])
  }

  function CreateEmpty(title: string): (n: Note)
    ensures n == Of(title, "").(content := None)
  {
    Note(title, None, None, None, None, [])
  }

  /** The outgoingLinks and incomingLinks collections of one note. */
  datatype LinkSets = LinkSets(outgoing: set<StoredLink>, incoming: set<StoredLink>)

  /** getAllLinks: the union of both directions; never larger than getLinkCount. */
  function AllLinks(s: LinkSets): (r: set<StoredLink>)
    ensures forall l :: l in r <==> l in s.outgoing || l in s.incoming
    ensures |r| <= LinkCount(s)
  {
    UnionBound(s.outgoing, s.incoming);
    s.outgoing + s.incoming
  }

  lemma {:induction false} UnionBound<T>(a: set<T>, b: set<T>)
    ensures |a + b| <= |a| + |b|
  {
    assert a + b == a + (b - a);
    assert |b - a| <= |b| by {
      assert b == (b - a) + (b * a);
    }
  }

  function LinkCount(s: LinkSets): nat
  {
    |s.outgoing| + |s.incoming|
  }

  /** isOrphaned: no link in either direction, that is, a link count of zero. */
  predicate IsOrphaned(s: LinkSets)
    ensures IsOrphaned(s) <==> LinkCount(s) == 0
  {
    s.outgoing == {} && s.incoming == {}
  }

  /** isLinkedTo: some outgoing link ends at other, or some incoming link starts there. */
  predicate IsLinkedTo(s: LinkSets, other: NoteId)
  {
    (exists l :: l in s.outgoing && l.link.target == other) ||
    (exists l :: l in s.incoming && l.link.source == other)
  }

  predicate HasOutgoingLinkOfType(s: LinkSets, t: LinkType)
  {
    exists l :: l in s.outgoing && l.link.linkType == t
  }

  predicate HasIncomingLinkOfType(s: LinkSets, t: LinkType)
  {
    exists l :: l in s.incoming && l.link.linkType == t
  }

  /** An orphaned note is linked to nothing and has links of no type. */
  lemma OrphanedHasNoLinks(s: LinkSets, other: NoteId, t: LinkType)
    requires IsOrphaned(s)
    ensures !IsLinkedTo(s, other) && !HasOutgoingLinkOfType(s, t) && !HasIncomingLinkOfType(s, t)
    ensures AllLinks(s) == {}
  {
  }

  function AttachmentCount(n: Note): nat
  {
    |n.attachments|
  }

  predicate HasAttachments(n: Note)
    ensures HasAttachments(n) <==> AttachmentCount(n) > 0
  {
    n.attachments != []
  }

  predicate HasWordDocuments(n: Note)
  {
    exists i :: 0 <= i < |n.attachments| && IsWordDocument(n.attachments[i])
  }

  predicate HasPdfDocuments(n: Note)
  {
    exists i :: 0 <= i < |n.attachments| && IsPdf(n.attachments[i])
  }

  predicate HasImages(n: Note)
  {
    exists i :: 0 <= i < |n.attachments| && IsImage(n.attachments[i])
  }

  function SizeOrZero(a: Attachment): int
  {
    if a.fileSize.Some? then a.fileSize.value else 0
  }

  /** getTotalAttachmentSize: the sum of the sizes, a null size counting as 0. */
  function TotalSize(attachments: seq<Attachment>): int
  {
    if |attachments| == 0 then 0 else SizeOrZero(attachments[0]) + TotalSize(attachments[1..])
  }

  function TotalAttachmentSize(n: Note): int
  {
    TotalSize(n.attachments)
  }

  /** The total is additive over a split of the attachments. */
  lemma {:induction false} TotalSizeAppend(a: seq<Attachment>, b: seq<Attachment>)
    ensures TotalSize(a + b) == TotalSize(a) + TotalSize(b)
  {
    if |a| == 0 {
      assert a + b == b;
    } else {
      assert (a + b)[0] == a[0];
      assert (a + b)[1..] == a[1..] + b;
      TotalSizeAppend(a[1..], b);
    }
  }

  /** With no negative size recorded the total bounds every single size. */
  lemma {:induction false} TotalSizeBoundsEach(a: seq<Attachment>, i: nat)
    requires i < |a|
    requires forall k :: 0 <= k < |a| ==> SizeOrZero(a[k]) >= 0
    ensures 0 <= SizeOrZero(a[i]) <= TotalSize(a)
  {
    TotalSizeNonNegative(a[1..]);
    if i > 0 {
      TotalSizeBoundsEach(a[1..], i - 1);
    }
  }

  lemma {:induction false} TotalSizeNonNegative(a: seq<Attachment>)
    requires forall k :: 0 <= k < |a| ==> SizeOrZero(a[k]) >= 0
    ensures TotalSize(a) >= 0
  {
    if |a| > 0 {
      TotalSizeNonNegative(a[1..]);
    }
  }
}
