// Group: a node of the per-user folder forest. Parent pointers form the
// forest; names, colours and icons are inherited up the parent chain.
module Groups {
  import opened Wrappers
  import opened Ids
  import opened Notes
  import Strings
  import Sorting

  const DefaultColor := "#6c757d"
  const DefaultIcon := "fas fa-folder"

  datatype Group = Group(
    name: string,
    description: Option<string>,
    color: Option<string>,
    icon: Option<string>,
    owner: Option<UserId>,
    parent: Option<GroupId>,
    sortOrder: int)

  type GroupTable = map<GroupId, Group>

  /** Group.of(name, description): default grey colour, no icon, a root, sort order 0. */
  function Of(name: string, description: Option<string>): (g: Group)
    ensures g.name == name && g.description == description
    ensures g.color == Some(DefaultColor) && g.icon.None? && g.parent.None? && g.sortOrder == 0
  {
    Group(name, description, Some(DefaultColor), None, None, None, 0)
  }

  /** Group.of(name, description, color, icon). */
  function OfStyled(name: string, description: Option<string>, color: Option<string>, icon: Option<string>): (g: Group)
    ensures g == Of(name, description).(color := color, icon := icon)
  {
    Group(name, description, color, icon, None, None, 0)
  }

  /** Group.withParent: grey colour and the given parent. */
  function WithParent(name: string, description: Option<string>, parent: GroupId): (g: Group)
    ensures g == Of(name, description).(parent := Some(parent))
  {
    Group(name, description, Some(DefaultColor), None, None, Some(parent), 0)
  }

  predicate IsRootGroup(g: Group)
  {
    g.parent.None?
  }

  /** The subGroups collection: the groups whose parent is id. */
  function SubGroups(groups: GroupTable, id: GroupId): set<GroupId>
  {
    set c | c in groups && groups[c].parent == Some(id)
  }

  predicate HasSubGroups(groups: GroupTable, id: GroupId)
  {
    SubGroups(groups, id) != {}
  }

  /** The notes collection: the notes whose group is id. */
  function NotesIn(notes: map<NoteId, Note>, id: GroupId): set<NoteId>
  {
    set n | n in notes && notes[n].group == Some(id)
  }

  function NoteCount(notes: map<NoteId, Note>, id: GroupId): nat
  {
    |NotesIn(notes, id)|
  }

  /**
   * getTotalNoteCount: the own count plus the totals of the subgroups. Each
   * descent removes the group it leaves from `remaining`, which bounds the
   * recursion even on a cyclic table, where the source would not terminate.
   */
  function TotalWithin(groups: GroupTable, notes: map<NoteId, Note>, id: GroupId, remaining: set<GroupId>): (r: nat)
    requires id in remaining
    ensures r >= NoteCount(notes, id)
    decreases |remaining|, 0
  {
    NoteCount(notes, id) + SumTotals(groups, notes, Sorting.Ascending(SubGroups(groups, id)), remaining - {id})
  }

  function SumTotals(groups: GroupTable, notes: map<NoteId, Note>, children: seq<GroupId>, remaining: set<GroupId>): nat
    decreases |remaining|, |children| + 1
  {
    if |children| == 0 then 0
    else
      (if children[0] in remaining then TotalWithin(groups, notes, children[0], remaining) else 0)
      + SumTotals(groups, notes, children[1..], remaining)
  }

  function TotalNoteCount(groups: GroupTable, notes: map<NoteId, Note>, id: GroupId): (r: nat)
    requires id in groups
    ensures r >= NoteCount(notes, id)
  {
    TotalWithin(groups, notes, id, groups.Keys)
  }

  /** A group without subgroups counts exactly its own notes. */
  lemma LeafTotal(groups: GroupTable, notes: map<NoteId, Note>, id: GroupId)
    requires id in groups && !HasSubGroups(groups, id)
    ensures TotalNoteCount(groups, notes, id) == NoteCount(notes, id)
  {
    var children := Sorting.Ascending(SubGroups(groups, id));
    assert children == [];
    assert TotalWithin(groups, notes, id, groups.Keys)
      == NoteCount(notes, id) + SumTotals(groups, notes, children, groups.Keys - {id});
  }

  /**
   * getTotalNoteCount as the source computes it: start from the own count
   * and add each subgroup's total.
   */
  method ComputeTotalWithin(groups: GroupTable, notes: map<NoteId, Note>, id: GroupId, remaining: set<GroupId>)
    returns (count: nat)
    requires id in remaining
    ensures count == TotalWithin(groups, notes, id, remaining)
    decreases |remaining|, 0
  {
    var children := Sorting.Ascending(SubGroups(groups, id));
    var sum := SumChildTotals(groups, notes, children, remaining - {id});
    count := NoteCount(notes, id) + sum;
  }

  /** The loop over the subgroups, adding each one's total while it is still unvisited. */
  method SumChildTotals(groups: GroupTable, notes: map<NoteId, Note>, children: seq<GroupId>, remaining: set<GroupId>)
    returns (sum: nat)
    ensures sum == SumTotals(groups, notes, children, remaining)
    decreases |remaining|, |children| + 1
  {
    sum := 0;
    assert children[0..] == children;
    var i := 0;
    while i < |children|
      invariant 0 <= i <= |children|
      invariant sum + SumTotals(groups, notes, children[i..], remaining) == SumTotals(groups, notes, children, remaining)
    {
      SumTotalsStep(groups, notes, children, i, remaining);
      if children[i] in remaining {
        var sub := ComputeTotalWithin(groups, notes, children[i], remaining);
        sum := sum + sub;
      }
      i := i + 1;
    }
  }

  /** The sum over a suffix of the children: the first one's total, if still unvisited, and the sum over the rest. */
  lemma SumTotalsStep(groups: GroupTable, notes: map<NoteId, Note>, children: seq<GroupId>, i: nat, remaining: set<GroupId>)
    requires i < |children|
    ensures SumTotals(groups, notes, children[i..], remaining)
      == (if children[i] in remaining then TotalWithin(groups, notes, children[i], remaining) else 0)
       + SumTotals(groups, notes, children[i + 1..], remaining)
  {
    assert children[i..][1..] == children[i + 1..];
  }

  method ComputeTotalNoteCount(groups: GroupTable, notes: map<NoteId, Note>, id: GroupId) returns (count: nat)
    requires id in groups
    ensures count == TotalNoteCount(groups, notes, id)
    ensures count >= NoteCount(notes, id)
  {
    count := ComputeTotalWithin(groups, notes, id, groups.Keys);
  }

  // ---------------------------------------------------------------------
  // Parent chains. A walk up the parent pointers that meets no root within
  // |groups| steps can only be going round a cycle.

  /** The root-first chain of ancestors ending in id, if a root is reached within fuel groups. */
  function ChainFrom(groups: GroupTable, id: GroupId, fuel: nat): Option<seq<GroupId>>
    decreases fuel
  {
    if fuel == 0 || id !in groups then None
    else match groups[id].parent
      case None => Some([id])
      case Some(p) =>
        match ChainFrom(groups, p, fuel - 1)
        case None => None
        case Some(c) => Some(c + [id])
  }

  function Chain(groups: GroupTable, id: GroupId): Option<seq<GroupId>>
  {
    ChainFrom(groups, id, |groups|)
  }

  /** The walk up from id reaches a root: the source's recursions and loops over parents end. */
  predicate Terminates(groups: GroupTable, id: GroupId)
  {
    Chain(groups, id).Some?
  }

  predicate Acyclic(groups: GroupTable)
  {
    forall id :: id in groups ==> Terminates(groups, id)
  }

  /** c is a root-first list of stored groups in which each element's parent is the previous one. */
  predicate IsChain(groups: GroupTable, c: seq<GroupId>)
  {
    |c| > 0
    && (forall i :: 0 <= i < |c| ==> c[i] in groups)
    && groups[c[0]].parent.None?
    && (forall i :: 0 < i < |c| ==> groups[c[i]].parent == Some(c[i - 1]))
  }

  lemma {:induction false} ChainSound(groups: GroupTable, id: GroupId, fuel: nat)
    requires ChainFrom(groups, id, fuel).Some?
    ensures var c := ChainFrom(groups, id, fuel).value;
      IsChain(groups, c) && c[|c| - 1] == id && |c| <= fuel
    decreases fuel
  {
    match groups[id].parent
    case None =>
    case Some(p) =>
      ChainSound(groups, p, fuel - 1);
      var c := ChainFrom(groups, p, fuel - 1).value;
      assert ChainFrom(groups, id, fuel).value == c + [id];
  }

  lemma {:induction false} ChainComplete(groups: GroupTable, c: seq<GroupId>, fuel: nat)
    requires IsChain(groups, c) && |c| <= fuel
    ensures ChainFrom(groups, c[|c| - 1], fuel) == Some(c)
    decreases |c|
  {
    if |c| > 1 {
      var init := c[..|c| - 1];
      assert IsChain(groups, init) by {
        assert forall i :: 0 < i < |init| ==> groups[init[i]].parent == Some(init[i - 1]);
      }
      ChainComplete(groups, init, fuel - 1);
      assert c == init + [c[|c| - 1]];
      assert groups[c[|c| - 1]].parent == Some(init[|init| - 1]);
    } else {
      assert groups[c[0]].parent.None? && c == [c[0]];
    }
  }

  /** A chain never repeats a group: a repeat would lead back to a root with a parent. */
  lemma {:induction false} ChainNoRepeat(groups: GroupTable, c: seq<GroupId>, i: nat, j: nat)
    requires IsChain(groups, c) && i < j < |c|
    ensures c[i] != c[j]
    decreases i
  {
    assert groups[c[j]].parent == Some(c[j - 1]);
    if i > 0 {
      assert groups[c[i]].parent == Some(c[i - 1]);
      ChainNoRepeat(groups, c, i - 1, j - 1);
    }
  }

  lemma {:induction false} DistinctBound(c: seq<GroupId>, s: set<GroupId>)
    requires forall i :: 0 <= i < |c| ==> c[i] in s
    requires forall i, j :: 0 <= i < j < |c| ==> c[i] != c[j]
    ensures |c| <= |s|
    decreases |c|
  {
    if |c| > 0 {
      var rest := c[1..];
      forall i | 0 <= i < |rest| ensures rest[i] in s - {c[0]} {
        assert rest[i] == c[i + 1];
      }
      DistinctBound(rest, s - {c[0]});
    }
  }

  /** Every chain is the chain the walk finds: having one is the same as terminating. */
  lemma {:induction false} ChainTerminates(groups: GroupTable, c: seq<GroupId>)
    requires IsChain(groups, c)
    ensures Chain(groups, c[|c| - 1]) == Some(c)
  {
    forall i, j | 0 <= i < j < |c| ensures c[i] != c[j] {
      ChainNoRepeat(groups, c, i, j);
    }
    DistinctBound(c, groups.Keys);
    ChainComplete(groups, c, |groups|);
  }

  /** The chain of a terminating group: root first, ending in the group, parents in order. */
  lemma ChainShape(groups: GroupTable, id: GroupId)
    requires Terminates(groups, id)
    ensures var c := Chain(groups, id).value;
      IsChain(groups, c) && c[|c| - 1] == id && id in groups && IsRootGroup(groups[c[0]])
  {
    ChainSound(groups, id, |groups|);
  }

  // ---------------------------------------------------------------------
  // Inheritance up the chain.

  function Names(groups: GroupTable, c: seq<GroupId>): (r: seq<string>)
    requires forall i :: 0 <= i < |c| ==> c[i] in groups
    ensures |r| == |c| && forall i :: 0 <= i < |c| ==> r[i] == groups[c[i]].name
  {
    seq(|c|, i requires 0 <= i < |c| => groups[c[i]].name)
  }

  function FullNameFrom(groups: GroupTable, id: GroupId, fuel: nat): string
    requires ChainFrom(groups, id, fuel).Some?
    decreases fuel
  {
    match groups[id].parent
    case None => groups[id].name
    case Some(p) => FullNameFrom(groups, p, fuel - 1) + " > " + groups[id].name
  }

  /** getFullName: the parent's full name, " > ", then the own name. */
  function FullName(groups: GroupTable, id: GroupId): string
    requires Terminates(groups, id)
  {
    FullNameFrom(groups, id, |groups|)
  }

  /** The full name is the chain's names, root first, joined by " > "; a root's is its own name. */
  lemma {:induction false} FullNameIsJoinedChain(groups: GroupTable, id: GroupId, fuel: nat)
    requires ChainFrom(groups, id, fuel).Some?
    ensures var c := ChainFrom(groups, id, fuel).value;
      IsChain(groups, c) && FullNameFrom(groups, id, fuel) == Strings.Join(Names(groups, c), " > ")
    ensures IsRootGroup(groups[id]) ==> FullNameFrom(groups, id, fuel) == groups[id].name
    decreases fuel
  {
    ChainSound(groups, id, fuel);
    match groups[id].parent
    case None =>
    case Some(p) =>
      FullNameIsJoinedChain(groups, p, fuel - 1);
      ChainSound(groups, p, fuel - 1);
      var c := ChainFrom(groups, p, fuel - 1).value;
      assert ChainFrom(groups, id, fuel).value == c + [id];
      assert Names(groups, c + [id]) == Names(groups, c) + [groups[id].name];
      Strings.JoinAppend(Names(groups, c), groups[id].name, " > ");
  }

  datatype Style = ColorStyle | IconStyle

  function StyleOf(g: Group, s: Style): Option<string>
  {
    match s
    case ColorStyle => g.color
    case IconStyle => g.icon
  }

  function StyleDefault(s: Style): string
  {
    match s
    case ColorStyle => DefaultColor
    case IconStyle => DefaultIcon
  }

  predicate HasText(v: Option<string>)
  {
    v.Some? && |v.value| > 0
  }

  /** getDisplayColor / getDisplayIcon: the own non-empty value, else the parent's, else the default. */
  function DisplayStyleFrom(groups: GroupTable, id: GroupId, s: Style, fuel: nat): string
    requires ChainFrom(groups, id, fuel).Some?
    decreases fuel
  {
    var g := groups[id];
    if HasText(StyleOf(g, s)) then StyleOf(g, s).value
    else match g.parent
      case None => StyleDefault(s)
      case Some(p) => DisplayStyleFrom(groups, p, s, fuel - 1)
  }

  function DisplayColor(groups: GroupTable, id: GroupId): string
    requires Terminates(groups, id)
  {
    DisplayStyleFrom(groups, id, ColorStyle, |groups|)
  }

  function DisplayIcon(groups: GroupTable, id: GroupId): string
    requires Terminates(groups, id)
  {
    DisplayStyleFrom(groups, id, IconStyle, |groups|)
  }

  predicate Styled(groups: GroupTable, id: GroupId, s: Style)
  {
    id in groups && HasText(StyleOf(groups[id], s))
  }

  /**
   * The displayed value is that of the nearest group on the chain (the group
   * itself first) with a non-empty value; if there is none, the default.
   */
  lemma {:induction false} DisplayStyleIsNearest(groups: GroupTable, id: GroupId, s: Style, fuel: nat)
    requires ChainFrom(groups, id, fuel).Some?
    ensures var c := ChainFrom(groups, id, fuel).value;
      var r := DisplayStyleFrom(groups, id, s, fuel);
      ((exists i :: 0 <= i < |c| && Styled(groups, c[i], s)) ==>
        exists i :: 0 <= i < |c| && Styled(groups, c[i], s) && r == StyleOf(groups[c[i]], s).value
          && forall j :: i < j < |c| ==> !Styled(groups, c[j], s))
      && ((forall i :: 0 <= i < |c| ==> !Styled(groups, c[i], s)) ==> r == StyleDefault(s))
    decreases fuel
  {
    ChainSound(groups, id, fuel);
    var c := ChainFrom(groups, id, fuel).value;
    var r := DisplayStyleFrom(groups, id, s, fuel);
    if Styled(groups, id, s) {
      assert c[|c| - 1] == id;
    } else {
      match groups[id].parent
      case None =>
        assert c == [id];
      case Some(p) =>
        DisplayStyleIsNearest(groups, p, s, fuel - 1);
        var c' := ChainFrom(groups, p, fuel - 1).value;
        assert c == c' + [id];
        if exists i :: 0 <= i < |c| && Styled(groups, c[i], s) {
          var i :| 0 <= i < |c| && Styled(groups, c[i], s);
          assert i < |c'| && Styled(groups, c'[i], s);
          var k :| 0 <= k < |c'| && Styled(groups, c'[k], s) && r == StyleOf(groups[c'[k]], s).value
            && forall j :: k < j < |c'| ==> !Styled(groups, c'[j], s);
          assert c[k] == c'[k];
          assert forall j :: k < j < |c| ==> !Styled(groups, c[j], s) by {
            forall j | k < j < |c| ensures !Styled(groups, c[j], s) {
              if j < |c'| { assert c[j] == c'[j]; }
            }
          }
        } else {
          assert forall i :: 0 <= i < |c'| ==> !Styled(groups, c'[i], s) by {
            forall i | 0 <= i < |c'| ensures !Styled(groups, c'[i], s) { assert c[i] == c'[i]; }
          }
        }
    }
  }

  // ---------------------------------------------------------------------
  // Re-parenting and cycles.

  /** The table after group id's parent pointer is set to parent. */
  function Reparent(groups: GroupTable, id: GroupId, parent: Option<GroupId>): (r: GroupTable)
    requires id in groups
    ensures r.Keys == groups.Keys
    ensures r[id] == groups[id].(parent := parent)
    ensures forall x :: x in groups && x != id ==> r[x] == groups[x]
  {
    groups[id := groups[id].(parent := parent)]
  }

  /** The intended guard of moveGroup: the new parent is the group itself or one of its descendants. */
  predicate WouldCreateCycle(groups: GroupTable, id: GroupId, parent: GroupId)
    requires Terminates(groups, parent)
  {
    id in Chain(groups, parent).value
  }

  /** A chain avoiding every changed parent pointer is still a chain. */
  lemma ChainKept(groups: GroupTable, groups': GroupTable, c: seq<GroupId>)
    requires IsChain(groups, c)
    requires forall i :: 0 <= i < |c| ==> c[i] in groups' && groups'[c[i]].parent == groups[c[i]].parent
    ensures IsChain(groups', c)
  {
  }

  /**
   * Moving a group to the top level, or under a parent that is neither the
   * group nor one of its descendants, keeps every parent walk finite.
   */
  lemma {:induction false} MoveKeepsAcyclic(groups: GroupTable, id: GroupId, parent: Option<GroupId>)
    requires Acyclic(groups) && id in groups
    requires parent.Some? ==> parent.value in groups && !WouldCreateCycle(groups, id, parent.value)
    ensures Acyclic(Reparent(groups, id, parent))
  {
    var groups' := Reparent(groups, id, parent);
    forall x | x in groups' ensures Terminates(groups', x) {
      ChainShape(groups, x);
      var c := Chain(groups, x).value;
      if k :| 0 <= k < |c| && c[k] == id {
        MovedChain(groups, id, parent, c, k);
      } else {
        ChainKept(groups, groups', c);
        ChainTerminates(groups', c);
      }
    }
  }

  /** A chain through the moved group: the new parent's chain, then the part from the group on. */
  lemma MovedChain(groups: GroupTable, id: GroupId, parent: Option<GroupId>, c: seq<GroupId>, k: nat)
    requires Acyclic(groups) && id in groups
    requires parent.Some? ==> parent.value in groups && !WouldCreateCycle(groups, id, parent.value)
    requires IsChain(groups, c) && k < |c| && c[k] == id
    ensures Terminates(Reparent(groups, id, parent), c[|c| - 1])
  {
    var groups' := Reparent(groups, id, parent);
    var tail := c[k..];
    forall i | 0 < i < |tail| ensures tail[i] != id {
      ChainNoRepeat(groups, c, k, k + i);
    }
    var prefix: seq<GroupId> := [];
    if parent.Some? {
      ChainShape(groups, parent.value);
      prefix := Chain(groups, parent.value).value;
      ChainKept(groups, groups', prefix);
    }
    var c' := prefix + tail;
    assert IsChain(groups', c') by {
      forall i | 0 < i < |c'| ensures groups'[c'[i]].parent == Some(c'[i - 1]) {
        if i > |prefix| {
          assert c'[i] == c[k + i - |prefix|] && c'[i - 1] == c[k + i - |prefix| - 1];
        }
      }
    }
    assert c'[|c'| - 1] == c[|c| - 1];
    ChainTerminates(groups', c');
  }

  /** Making a group its own parent leaves it with no chain at all. */
  lemma OwnParentIsCycle(groups: GroupTable, id: GroupId)
    requires id in groups
    ensures !Terminates(Reparent(groups, id, Some(id)), id)
  {
    var groups' := Reparent(groups, id, Some(id));
    if Terminates(groups', id) {
      ChainShape(groups', id);
      var c := Chain(groups', id).value;
      if |c| > 1 {
        ChainNoRepeat(groups', c, |c| - 2, |c| - 1);
      }
      assert false;
    }
  }

  /** Parent walks read nothing but the parent pointers. */
  lemma {:induction false} ChainFromParentsOnly(groups: GroupTable, groups': GroupTable, id: GroupId, fuel: nat)
    requires groups.Keys == groups'.Keys
    requires forall x :: x in groups ==> groups'[x].parent == groups[x].parent
    ensures ChainFrom(groups, id, fuel) == ChainFrom(groups', id, fuel)
    decreases fuel
  {
    if fuel > 0 && id in groups && groups[id].parent.Some? {
      ChainFromParentsOnly(groups, groups', groups[id].parent.value, fuel - 1);
    }
  }

  /** Two tables with the same groups and the same parent pointers are acyclic together. */
  lemma AcyclicParentsOnly(groups: GroupTable, groups': GroupTable)
    requires groups.Keys == groups'.Keys
    requires forall x :: x in groups ==> groups'[x].parent == groups[x].parent
    ensures Acyclic(groups) <==> Acyclic(groups')
  {
    assert |groups| == |groups.Keys| == |groups'.Keys| == |groups'|;
    forall x | x in groups ensures Terminates(groups, x) <==> Terminates(groups', x) {
      ChainFromParentsOnly(groups, groups', x, |groups|);
    }
  }

  /**
   * Below a chain c of groups' that ends just under p, the walk up from p
   * follows the parents recorded in cp for every element after position k.
   */
  lemma {:induction false} WalkAgrees(groups': GroupTable, c: seq<GroupId>, cp: seq<GroupId>, k: nat, i: nat)
    requires IsChain(groups', c) && |c| >= 2 && k < |cp|
    requires forall j :: k < j < |cp| ==> cp[j] in groups' && groups'[cp[j]].parent == Some(cp[j - 1])
    requires c[|c| - 2] == cp[|cp| - 1]
    requires i <= |cp| - 1 - k
    ensures i <= |c| - 2 && c[|c| - 2 - i] == cp[|cp| - 1 - i]
    decreases i
  {
    if i > 0 {
      WalkAgrees(groups', c, cp, k, i - 1);
      var x := c[|c| - 1 - i];
      assert x == cp[|cp| - i] && groups'[x].parent == Some(cp[|cp| - i - 1]);
      assert |c| - 1 - i > 0;
      assert groups'[c[|c| - 1 - i]].parent == Some(c[|c| - 2 - i]);
    }
  }

  /** Putting a group under itself or under one of its descendants closes a cycle through it. */
  lemma UnderOwnSubtreeIsCycle(groups: GroupTable, id: GroupId, p: GroupId)
    requires id in groups && Terminates(groups, p) && WouldCreateCycle(groups, id, p)
    ensures !Terminates(Reparent(groups, id, Some(p)), id)
  {
    var groups' := Reparent(groups, id, Some(p));
    ChainShape(groups, p);
    var cp := Chain(groups, p).value;
    var k :| 0 <= k < |cp| && cp[k] == id;
    if Terminates(groups', id) {
      ChainShape(groups', id);
      var c := Chain(groups', id).value;
      assert |c| >= 2 && c[|c| - 2] == p by {
        assert groups'[c[|c| - 1]].parent == Some(p);
      }
      forall j | k < j < |cp| ensures cp[j] in groups' && groups'[cp[j]].parent == Some(cp[j - 1]) {
        ChainNoRepeat(groups, cp, k, j);
      }
      WalkAgrees(groups', c, cp, k, |cp| - 1 - k);
      ChainNoRepeat(groups', c, |c| - 2 - (|cp| - 1 - k), |c| - 1);
      assert false;
    }
  }
}
