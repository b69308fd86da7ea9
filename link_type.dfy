// NoteLinkType: the closed set of link kinds, their categories and the
// inverse used when a link is created in both directions.
module LinkTypes {
  import opened Wrappers
  import Strings

  datatype LinkType =
    | RelatesTo | References | FollowsFrom | Contradicts | Extends | Summarizes
    | Implements | InspiredBy | ParentOf | ChildOf | SimilarTo | Prerequisites
    | DerivedFrom | Updates | Obsoletes | Cites | Mentions

  /** The enum constants in declaration order. */
  const AllTypes: seq<LinkType> := [
    RelatesTo, References, FollowsFrom, Contradicts, Extends, Summarizes,
    Implements, InspiredBy, ParentOf, ChildOf, SimilarTo, Prerequisites,
    DerivedFrom, Updates, Obsoletes, Cites, Mentions]

  /** The Java constant name (Enum.name()). */
  function Name(t: LinkType): string
  {
    match t
    case RelatesTo => "RELATES_TO"
    case References => "REFERENCES"
    case FollowsFrom => "FOLLOWS_FROM"
    case Contradicts => "CONTRADICTS"
    case Extends => "EXTENDS"
    case Summarizes => "SUMMARIZES"
    case Implements => "IMPLEMENTS"
    case InspiredBy => "INSPIRED_BY"
    case ParentOf => "PARENT_OF"
    case ChildOf => "CHILD_OF"
    case SimilarTo => "SIMILAR_TO"
    case Prerequisites => "PREREQUISITES"
    case DerivedFrom => "DERIVED_FROM"
    case Updates => "UPDATES"
    case Obsoletes => "OBSOLETES"
    case Cites => "CITES"
    case Mentions => "MENTIONS"
  }

  predicate IsHierarchical(t: LinkType) { t == ParentOf || t == ChildOf }

  predicate IsSequential(t: LinkType) { t == FollowsFrom || t == Prerequisites || t == Updates }

  predicate IsContentBased(t: LinkType)
  {
    t == SimilarTo || t == Extends || t == Summarizes || t == DerivedFrom
  }

  predicate IsConflicting(t: LinkType) { t == Contradicts || t == Obsoletes }

  /** getInverse: three swapped pairs, CITES to MENTIONS, everything else to RELATES_TO. */
  function Inverse(t: LinkType): (r: LinkType)
    ensures r == t <==> t == RelatesTo
    ensures IsHierarchical(r) <==> IsHierarchical(t)
    ensures (t !in {ParentOf, ChildOf, FollowsFrom, Prerequisites, Updates, Obsoletes, Cites}) ==> r == RelatesTo
  {
    match t
    case ParentOf => ChildOf
    case ChildOf => ParentOf
    case FollowsFrom => Prerequisites
    case Prerequisites => FollowsFrom
    case Updates => Obsoletes
    case Obsoletes => Updates
    case Cites => Mentions
    case _ => RelatesTo
  }

  /** valueOf on the upper-cased name: the constant whose name matches, if any. */
  function Lookup(upper: string, candidates: seq<LinkType>): (r: Option<LinkType>)
    ensures r.Some? ==> r.value in candidates && Name(r.value) == upper
    ensures r.None? ==> forall t :: t in candidates ==> Name(t) != upper
  {
    if |candidates| == 0 then None
    else if Name(candidates[0]) == upper then Some(candidates[0])
    else Lookup(upper, candidates[1..])
  }

  /**
   * fromString: a null name gives null, a name equal to a constant's name
   * ignoring case gives that constant, any other name is an error.
   */
  function FromString(name: Option<string>): (r: Result<Option<LinkType>>)
    ensures name.None? ==> r == Ok(None)
    ensures name.Some? && r.Ok? ==> r.value.Some? && Name(r.value.value) == Strings.Upper(name.value)
    ensures name.Some? && r.Err? ==> forall t :: Name(t) != Strings.Upper(name.value)
  {
    match name
    case None => Ok(None)
    case Some(n) =>
      match Lookup(Strings.Upper(n), AllTypes)
      case Some(t) => Ok(Some(t))
      case None => Err(InvalidArgument("Unknown link type: " + n))
  }

  lemma NamesDistinct(a: LinkType, b: LinkType)
    ensures Name(a) == Name(b) ==> a == b
  {
  }

  /** Every constant is recovered from its name, in any letter case. */
  lemma {:induction false} FromStringOfName(t: LinkType, s: string)
    requires Strings.Upper(s) == Name(t)
    ensures FromString(Some(s)) == Ok(Some(t))
  {
    NamesDistinct(FromString(Some(s)).value.value, t);
  }

  /** The three swapped pairs are the types on which the inverse is an involution. */
  lemma InverseInvolutionOnPairs(t: LinkType)
    ensures Inverse(Inverse(t)) == t <==> t in {RelatesTo, ParentOf, ChildOf, FollowsFrom, Prerequisites, Updates, Obsoletes}
  {
  }

  /** CITES has inverse MENTIONS, whose inverse is RELATES_TO, not CITES. */
  lemma CitesInverseNotInvolutive()
    ensures Inverse(Cites) == Mentions && Inverse(Mentions) == RelatesTo
    ensures Inverse(Inverse(Cites)) != Cites
  {
  }

  lemma CategoriesDisjoint(t: LinkType)
    ensures !(IsHierarchical(t) && IsSequential(t))
    ensures !(IsHierarchical(t) && IsContentBased(t))
    ensures !(IsHierarchical(t) && IsConflicting(t))
    ensures !(IsSequential(t) && IsContentBased(t))
    ensures !(IsSequential(t) && IsConflicting(t))
    ensures !(IsContentBased(t) && IsConflicting(t))
  {
  }

  /** OBSOLETES is conflicting and not sequential, although its inverse UPDATES is sequential. */
  lemma ObsoletesCategories()
    ensures IsConflicting(Obsoletes) && !IsSequential(Obsoletes)
    ensures IsSequential(Inverse(Obsoletes))
  {
  }
}
