// NoteLink: a typed, weighted, directed edge between two notes, with its
// builder defaults, factory methods and endpoint helpers.
module NoteLinks {
  import opened Wrappers
  import opened Ids
  import opened LinkTypes
  import Strings

  /**
   * The persistent fields that matter to the link logic. The weight column is
   * a nullable Integer; identity, audit timestamps and createdBy are left out,
   * and metadata lives in LinkMetadata below.
   */
  datatype NoteLink = NoteLink(
    source: NoteId,
    target: NoteId,
    linkType: LinkType,
    weight: Option<int>,
    isBidirectional: bool)

  /** A saved link: its generated id and its fields. */
  datatype StoredLink = StoredLink(id: LinkId, link: NoteLink)

  /** The builder with only endpoints and type set: weight 1, not bidirectional. */
  function Build(source: NoteId, target: NoteId, linkType: LinkType): (l: NoteLink)
    ensures l.source == source && l.target == target && l.linkType == linkType
    ensures l.weight == Some(1) && !l.isBidirectional
  {
    NoteLink(source, target, linkType, Some(1), false)
  }

  /** The three-argument constructor: the same defaults as the builder. */
  function Create(source: NoteId, target: NoteId, linkType: LinkType): (l: NoteLink)
    ensures l.source == source && l.target == target && l.linkType == linkType
    ensures l.weight == Some(1) && !l.isBidirectional
  {
    NoteLink(source, target, linkType, Some(1), false)
  }

  function Relates(source: NoteId, target: NoteId): (l: NoteLink)
    ensures l.source == source && l.target == target
    ensures l.linkType == RelatesTo && l.isBidirectional && l.weight == Some(1)
  {
    Build(source, target, RelatesTo).(isBidirectional := true)
  }

  function ReferencesLink(source: NoteId, target: NoteId): (l: NoteLink)
    ensures l.source == source && l.target == target && l.linkType == References
    ensures l.weight == Some(1) && !l.isBidirectional
  {
    Build(source, target, References)
  }

  function FollowsFromLink(source: NoteId, target: NoteId): (l: NoteLink)
    ensures l.source == source && l.target == target && l.linkType == FollowsFrom
    ensures l.weight == Some(1) && !l.isBidirectional
  {
    Build(source, target, FollowsFrom)
  }

  function ExtendsLink(source: NoteId, target: NoteId): (l: NoteLink)
    ensures l.source == source && l.target == target && l.linkType == Extends
    ensures l.weight == Some(3) && !l.isBidirectional
  {
    Build(source, target, Extends).(weight := Some(3))
  }

  function ContradictsLink(source: NoteId, target: NoteId): (l: NoteLink)
    ensures l.source == source && l.target == target && l.linkType == Contradicts
    ensures l.weight == Some(2) && !l.isBidirectional
  {
    Build(source, target, Contradicts).(weight := Some(2))
  }

  /** summarizes(summary, source): the summary note is the link's source. */
  function SummarizesLink(summary: NoteId, summarized: NoteId): (l: NoteLink)
    ensures l.source == summary && l.target == summarized && l.linkType == Summarizes
    ensures l.weight == Some(4) && !l.isBidirectional
  {
    Build(summary, summarized, Summarizes).(weight := Some(4))
  }

  /** implements_: a null weight becomes 3. */
  function ImplementsLink(implementation: NoteId, concept: NoteId, weight: Option<int>): (l: NoteLink)
    ensures l.linkType == Implements && !l.isBidirectional
    ensures l.source == implementation && l.target == concept
    ensures l.weight == Some(if weight.Some? then weight.value else 3)
  {
    Build(implementation, concept, Implements).(weight := Some(if weight.Some? then weight.value else 3))
  }

  function ParentChild(parent: NoteId, child: NoteId): (l: NoteLink)
    ensures l.source == parent && l.target == child && l.linkType == ParentOf
    ensures l.weight == Some(5) && !l.isBidirectional
  {
    Build(parent, child, ParentOf).(weight := Some(5))
  }

  predicate IsWeakLink(l: NoteLink)
  {
    l.weight.Some? && l.weight.value <= 3
  }

  /** isStrongLink: weight at least 7; never weak as well, and false for a null weight. */
  predicate IsStrongLink(l: NoteLink)
    ensures IsStrongLink(l) ==> !IsWeakLink(l) && l.weight.Some?
  {
    l.weight.Some? && l.weight.value >= 7
  }

  predicate Involves(l: NoteLink, n: NoteId)
  {
    l.source == n || l.target == n
  }

  /** getOtherNote: the far endpoint of a link seen from one of its ends; an error otherwise. */
  function OtherNote(l: NoteLink, n: NoteId): (r: Result<NoteId>)
    ensures r.Ok? <==> Involves(l, n)
    ensures r.Ok? ==> Involves(l, r.value)
    ensures r.Ok? && l.source != l.target ==> r.value != n
  {
    if l.source == n then Ok(l.target)
    else if l.target == n then Ok(l.source)
    else Err(InvalidArgument("Note is not part of this link"))
  }

  /** The other endpoint of the other endpoint is where one started, for a link between two notes. */
  lemma OtherNoteInvolutive(l: NoteLink, n: NoteId)
    requires Involves(l, n) && l.source != l.target
    ensures OtherNote(l, OtherNote(l, n).value) == Ok(n)
  {
  }

  /** A null weight is neither strong nor weak. */
  lemma NullWeightNeitherStrongNorWeak(l: NoteLink)
    requires l.weight.None?
    ensures !IsStrongLink(l) && !IsWeakLink(l)
  {
  }

  /**
   * The default-weight factories and extends_/contradicts give weak links;
   * summarizes and parentChild give links that are neither weak nor strong.
   */
  lemma FactoryStrengths(a: NoteId, b: NoteId)
    ensures IsWeakLink(Relates(a, b)) && IsWeakLink(ReferencesLink(a, b)) && IsWeakLink(FollowsFromLink(a, b))
    ensures IsWeakLink(ExtendsLink(a, b)) && IsWeakLink(ContradictsLink(a, b))
    ensures !IsWeakLink(SummarizesLink(a, b)) && !IsStrongLink(SummarizesLink(a, b))
    ensures !IsWeakLink(ParentChild(a, b)) && !IsStrongLink(ParentChild(a, b))
    ensures IsWeakLink(ImplementsLink(a, b, None))
  {
  }

  /**
   * A metadata value as Jackson reads it from the jsonb column, or as a caller
   * puts it: null, a string, an integral number (Integer, Long or BigInteger),
   * a floating-point number, a boolean, a list (ArrayList) or an object
   * (LinkedHashMap, its entries in document order). A floating-point number
   * carries the text Double.toString gives for it.
   */
  datatype MetaValue =
    | Null
    | Text(text: string)
    | Integral(number: int)
    | Decimal(shown: string)
    | Flag(flag: bool)
    | List(items: seq<MetaValue>)
    | Object(fields: seq<(string, MetaValue)>)

  /**
   * Object.toString of a metadata value: a list as AbstractCollection shows it
   * ("[a, b]"), an object as AbstractMap shows it ("{k=v, l=w}"), and a null
   * element or entry as "null".
   */
  function ValueToString(v: MetaValue): string
  {
    match v
    case Null => "null"
    case Text(s) => s
    case Integral(n) => Strings.IntToString(n)
    case Decimal(d) => d
    case Flag(b) => if b then "true" else "false"
    case List(items) =>
      "[" + Strings.Join(seq(|items|, i requires 0 <= i < |items| => ValueToString(items[i])), ", ") + "]"
    case Object(fields) =>
      "{" + Strings.Join(seq(|fields|, i requires 0 <= i < |fields| => fields[i].0 + "=" + ValueToString(fields[i].1)), ", ") + "}"
  }

  /** How toString shows the kinds of values a jsonb map holds. */
  lemma ShownValues()
    ensures ValueToString(Decimal("1.5")) == "1.5"
    ensures ValueToString(Integral(-42)) == "-42"
    ensures ValueToString(List([])) == "[]"
    ensures ValueToString(List([Text("a"), Text("b")])) == "[a, b]"
    ensures ValueToString(List([Null])) == "[null]"
    ensures ValueToString(Object([("k", Flag(true))])) == "{k=true}"
  {
    var items := [Text("a"), Text("b")];
    var shown := seq(|items|, i requires 0 <= i < |items| => ValueToString(items[i]));
    assert shown == ["a", "b"];
    assert shown[1..] == ["b"];
    assert Strings.Join(shown, ", ") == "a" + ", " + "b";
    assert ValueToString(List(items)) == "[" + Strings.Join(shown, ", ") + "]";
  }

  /** The metadata map of one link; the map is created lazily by the first put. */
  class LinkMetadata {
    var entries: Option<map<string, MetaValue>>

    constructor ()
      ensures entries == None
    {
      entries := None;
    }

    /**
     * getMetadata: null while the map is absent, the key is missing or the
     * key maps to null.
     */
    function GetMetadata(key: string): (r: Option<MetaValue>)
      reads this
      ensures entries.None? ==> r == None
      ensures r.Some? <==> entries.Some? && key in entries.value && !entries.value[key].Null?
      ensures r.Some? ==> r.value == entries.value[key]
    {
      if entries.Some? && key in entries.value && !entries.value[key].Null? then Some(entries.value[key]) else None
    }

    /** getMetadataAsString: null for a null value, otherwise the value's toString. */
    function GetMetadataAsString(key: string): (r: Option<string>)
      reads this
      ensures r.Some? <==> entries.Some? && key in entries.value && !entries.value[key].Null?
      ensures r.Some? ==> r.value == ValueToString(entries.value[key])
    {
      match GetMetadata(key)
      case None => None
      case Some(v) => Some(ValueToString(v))
    }

    /** addMetadata: creates the map if needed, then puts; other keys keep their values. */
    method AddMetadata(key: string, value: MetaValue)
      modifies this
      ensures entries.Some?
      ensures entries.value == (if old(entries).Some? then old(entries).value else map[])[key := value]
      ensures GetMetadata(key) == if value.Null? then None else Some(value)
      ensures forall k :: k != key ==> GetMetadata(k) == old(GetMetadata(k))
    {
      if entries.None? {
        entries := Some(map[]);
      }
      entries := Some(entries.value[key := value]);
    }
  }
}
