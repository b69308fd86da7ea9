// The group service over the group table: creation with a per-user name
// check, update, guarded delete, moves, the hierarchy walk and the
// per-user "Default" group.
module GroupService {
  import opened Wrappers
  import opened Ids
  import opened Notes
  import opened Groups
  import opened Store
  import Strings
  import Sorting
  import SingleResult

  // ---------------------------------------------------------------------
  // Finders of the group repository.

  predicate OwnedNamed(groups: GroupTable, user: UserId, name: string, id: GroupId)
  {
    id in groups && groups[id].owner == Some(user) && groups[id].name == name
  }

  /** existsByUserAndName. */
  predicate ExistsByUserAndName(groups: GroupTable, user: UserId, name: string)
  {
    exists id :: id in groups && OwnedNamed(groups, user, name, id)
  }

  /**
   * findByUserAndName: the user's one group with exactly this name; several
   * such groups make the finder throw.
   */
  function FindByUserAndName(groups: GroupTable, user: UserId, name: string): (r: Result<Option<GroupId>>)
    ensures r == Ok(None) <==> !ExistsByUserAndName(groups, user, name)
    ensures r.Ok? && r.value.Some? ==> forall id :: OwnedNamed(groups, user, name, id) <==> id == r.value.value
    ensures r.Err? <==> exists a, b :: OwnedNamed(groups, user, name, a) && OwnedNamed(groups, user, name, b) && a != b
    ensures r.Err? ==> r.error == IncorrectResultSize
  {
    var matches := set id | id in groups && OwnedNamed(groups, user, name, id);
    assert forall id :: OwnedNamed(groups, user, name, id) <==> id in matches;
    assert ExistsByUserAndName(groups, user, name) ==> matches != {} by {
      if ExistsByUserAndName(groups, user, name) {
        var id :| OwnedNamed(groups, user, name, id);
        assert id in matches;
      }
    }
    SingleResult.Unique(matches)
  }

  /** getGroupById: findByIdAndUser, so only a group of the acting user is found. */
  predicate OwnedGroup(groups: GroupTable, user: UserId, id: GroupId)
  {
    id in groups && groups[id].owner == Some(user)
  }

  /** hasAnyGroups. */
  predicate HasAnyGroups(groups: GroupTable, user: UserId)
  {
    exists id :: id in groups && groups[id].owner == Some(user)
  }

  predicate IsUserRoot(groups: GroupTable, user: UserId, id: GroupId)
  {
    id in groups && groups[id].owner == Some(user) && IsRootGroup(groups[id])
  }

  /** The order of ORDER BY sortOrder ASC, name ASC. */
  predicate Before(a: Group, b: Group)
  {
    a.sortOrder < b.sortOrder || (a.sortOrder == b.sortOrder && Strings.LexLess(a.name, b.name))
  }

  lemma BeforeTransitive(a: Group, b: Group, c: Group)
    requires Before(a, b) && Before(b, c)
    ensures Before(a, c)
  {
    if a.sortOrder == b.sortOrder == c.sortOrder {
      Strings.LexLessTransitive(a.name, b.name, c.name);
    }
  }

  lemma NotBeforeStep(a: Group, b: Group, c: Group)
    requires Before(b, c) && !Before(a, c)
    ensures !Before(a, b)
  {
    if Before(a, b) {
      BeforeTransitive(a, b, c);
    }
  }

  /** The first of ids in that order; of equals, the earliest in ids. */
  function FirstInOrder(groups: GroupTable, ids: seq<GroupId>): (r: GroupId)
    requires |ids| > 0 && forall i :: 0 <= i < |ids| ==> ids[i] in groups
    ensures r in ids && forall x :: x in ids ==> !Before(groups[x], groups[r])
  {
    if |ids| == 1 then
      Strings.LexLessTotal(groups[ids[0]].name, groups[ids[0]].name);
      assert forall x :: x in ids ==> x == ids[0];
      ids[0]
    else
      var best := FirstInOrder(groups, ids[1..]);
      if Before(groups[ids[0]], groups[best]) then
        forall x | x in ids[1..] ensures !Before(groups[x], groups[ids[0]]) {
          NotBeforeStep(groups[x], groups[ids[0]], groups[best]);
        }
        Strings.LexLessTotal(groups[ids[0]].name, groups[ids[0]].name);
        assert forall x :: x in ids ==> x == ids[0] || x in ids[1..];
        ids[0]
      else
        assert forall x :: x in ids ==> x == ids[0] || x in ids[1..];
        best
  }

  /** The user's root groups in ascending id order. */
  function UserRoots(groups: GroupTable, user: UserId): (r: seq<GroupId>)
    ensures forall id :: id in r <==> IsUserRoot(groups, user, id)
    ensures forall i :: 0 <= i < |r| ==> r[i] in groups
  {
    var roots := set id | id in groups && IsUserRoot(groups, user, id);
    var r := Sorting.Ascending(roots);
    assert forall i :: 0 <= i < |r| ==> r[i] in roots;
    r
  }

  /** The first of the user's root groups by (sortOrder, name), if the user has one. */
  function FirstRoot(groups: GroupTable, user: UserId): (r: Option<GroupId>)
    ensures r.Some? ==> IsUserRoot(groups, user, r.value)
    ensures r.Some? ==> forall id :: IsUserRoot(groups, user, id) ==> !Before(groups[id], groups[r.value])
    ensures r.None? <==> forall id :: id in groups ==> !IsUserRoot(groups, user, id)
  {
    var roots := UserRoots(groups, user);
    if |roots| == 0 then None else Some(FirstInOrder(groups, roots))
  }

  /** A root group of the user named "Default" in any case. */
  predicate IsDefaultRoot(groups: GroupTable, user: UserId, id: GroupId)
  {
    IsUserRoot(groups, user, id) && Strings.EqualsIgnoreCase(groups[id].name, DefaultGroupName)
  }

  /**
   * findByUserAndNameIgnoreCaseAndParentGroupIsNull(user, "Default"): the
   * user's one root group so named; several make the finder throw.
   */
  function FindDefaultGroup(groups: GroupTable, user: UserId): (r: Result<Option<GroupId>>)
    ensures r == Ok(None) <==> forall id :: !IsDefaultRoot(groups, user, id)
    ensures r.Ok? && r.value.Some? ==> forall id :: IsDefaultRoot(groups, user, id) <==> id == r.value.value
    ensures r.Err? <==> exists a, b :: IsDefaultRoot(groups, user, a) && IsDefaultRoot(groups, user, b) && a != b
    ensures r.Err? ==> r.error == IncorrectResultSize
  {
    var matches := set id | id in groups && IsDefaultRoot(groups, user, id);
    assert forall id :: IsDefaultRoot(groups, user, id) <==> id in matches;
    SingleResult.Unique(matches)
  }

  const DefaultGroupName := "Default"

  /** The group createDefaultGroup builds: it differs from Group.of in its icon. */
  function DefaultGroup(user: UserId): (g: Group)
    ensures g.name == DefaultGroupName && g.owner == Some(user) && IsRootGroup(g) && g.sortOrder == 0
    ensures g.color == Some(Groups.DefaultColor) && g.icon == Some("fas fa-sticky-note")
  {
    Group(DefaultGroupName, Some("Default group for your notes"), Some(Groups.DefaultColor), Some("fas fa-sticky-note"), Some(user), None, 0)
  }

  // ---------------------------------------------------------------------
  // Walks up the parent pointers.

  /** The proper ancestors of id: its chain without id itself. */
  function StrictAncestors(groups: GroupTable, id: GroupId): seq<GroupId>
    requires Terminates(groups, id)
  {
    var c := Chain(groups, id).value;
    ChainShape(groups, id);
    c[..|c| - 1]
  }

  /**
   * getGroupHierarchy: from the group up to its root, each one put in front,
   * so the list is root first. An unknown id gives the empty list.
   */
  method GetGroupHierarchy(db: Database, id: GroupId) returns (hierarchy: seq<GroupId>)
    requires id in db.groups ==> Terminates(db.groups, id)
    ensures id !in db.groups ==> hierarchy == []
    ensures id in db.groups ==> Chain(db.groups, id) == Some(hierarchy)
  {
    if id !in db.groups {
      return [];
    }
    ghost var c := Chain(db.groups, id).value;
    ChainShape(db.groups, id);
    hierarchy := [];
    var current: Option<GroupId> := Some(id);
    ghost var i := |c|;
    while current.Some?
      invariant 0 <= i <= |c|
      invariant hierarchy == c[i..]
      invariant current == if i == 0 then None else Some(c[i - 1])
      decreases i
    {
      hierarchy := [current.value] + hierarchy;
      assert c[i - 1..] == [c[i - 1]] + c[i..];
      current := db.groups[current.value].parent;
      i := i - 1;
    }
  }

  /**
   * isDescendantOf, as written: the walk starts at the candidate parent's own
   * parent, so it reports only proper ancestors and never the parent itself.
   */
  method IsDescendantOf(db: Database, potentialAncestor: GroupId, potentialDescendant: GroupId) returns (r: bool)
    requires potentialAncestor in db.groups && Terminates(db.groups, potentialAncestor)
    ensures r <==> potentialDescendant in StrictAncestors(db.groups, potentialAncestor)
  {
    ghost var c := Chain(db.groups, potentialAncestor).value;
    ChainShape(db.groups, potentialAncestor);
    var current := db.groups[potentialAncestor].parent;
    ghost var i := |c| - 1;
    if |c| > 1 {
      assert db.groups[c[|c| - 1]].parent == Some(c[|c| - 2]);
    }
    while current.Some?
      invariant 0 <= i <= |c| - 1
      invariant current == if i == 0 then None else Some(c[i - 1])
      invariant potentialDescendant !in c[i..|c| - 1]
      decreases i
    {
      if current.value == potentialDescendant {
        return true;
      }
      assert c[i - 1..|c| - 1] == [c[i - 1]] + c[i..|c| - 1];
      current := db.groups[current.value].parent;
      i := i - 1;
    }
    r := false;
  }

  /** In a table whose walks end, no group is its own proper ancestor. */
  lemma NotOwnAncestor(groups: GroupTable, id: GroupId)
    requires Terminates(groups, id)
    ensures id !in StrictAncestors(groups, id)
  {
    ChainShape(groups, id);
    var c := Chain(groups, id).value;
    forall i | 0 <= i < |c| - 1 ensures c[i] != id {
      ChainNoRepeat(groups, c, i, |c| - 1);
    }
  }

  /** After a move under p that the corrected check allows, the group's chain is p's chain then the group. */
  lemma ChainAfterMove(groups: GroupTable, id: GroupId, p: GroupId)
    requires id in groups && p in groups && Terminates(groups, p) && !WouldCreateCycle(groups, id, p)
    ensures Chain(Reparent(groups, id, Some(p)), id) == Some(Chain(groups, p).value + [id])
  {
    var groups' := Reparent(groups, id, Some(p));
    ChainShape(groups, p);
    var cp := Chain(groups, p).value;
    ChainKept(groups, groups', cp);
    var c := cp + [id];
    assert IsChain(groups', c) by {
      forall i | 0 < i < |c| ensures groups'[c[i]].parent == Some(c[i - 1]) {
        if i < |cp| { assert c[i] == cp[i] && c[i - 1] == cp[i - 1]; }
      }
    }
    ChainTerminates(groups', c);
  }

  /** After moving a group to the top level, its chain is the group alone. */
  lemma ChainAfterMoveToRoot(groups: GroupTable, id: GroupId)
    requires id in groups
    ensures Chain(Reparent(groups, id, None), id) == Some([id])
  {
    ChainTerminates(Reparent(groups, id, None), [id]);
  }

  // ---------------------------------------------------------------------
  // Operations that change the group table.

  /** Saving a new group: a fresh id and the given fields. */
  method Insert(db: Database, g: Group) returns (id: GroupId)
    requires db.Valid() && (g.parent.Some? ==> g.parent.value in db.groups)
    modifies db`groups, db`nextId
    ensures db.Valid()
    ensures id == old(db.nextId) && id !in old(db.groups) && db.groups == old(db.groups)[id := g]
    ensures db.nextId > old(db.nextId)
  {
    id := db.FreshId();
    db.groups := db.groups[id := g];
  }

  /** createGroup: the acting user becomes the owner; a name the user already has is refused. */
  method CreateGroup(db: Database, user: UserId, g: Group) returns (r: Result<GroupId>)
    requires db.Valid() && (g.parent.Some? ==> g.parent.value in db.groups)
    modifies db`groups, db`nextId
    ensures db.Valid()
    ensures r.Err? <==> ExistsByUserAndName(old(db.groups), user, g.name)
    ensures r.Err? ==> db.groups == old(db.groups)
    ensures r.Ok? ==> r.value !in old(db.groups) && db.groups == old(db.groups)[r.value := g.(owner := Some(user))]
  {
    if ExistsByUserAndName(db.groups, user, g.name) {
      return Err(AlreadyExists("Group"));
    }
    var id := Insert(db, g.(owner := Some(user)));
    r := Ok(id);
  }

  /**
   * updateGroup: an unknown id is refused, and so is a name the acting user
   * has on a different group (several groups of that name make the finder
   * throw); otherwise the stored group is replaced whole. There is no cycle
   * check: the tree stays acyclic exactly when the new parent is none or lies
   * outside the group's own subtree.
   */
  method UpdateGroup(db: Database, user: UserId, id: GroupId, g: Group) returns (r: Result<GroupId>)
    requires db.Valid() && (g.parent.Some? ==> g.parent.value in db.groups)
    modifies db`groups
    ensures db.Valid()
    ensures id !in old(db.groups) ==> r == Err(NotFound("Group"))
    ensures r.Ok? <==> (id in old(db.groups) && FindByUserAndName(old(db.groups), user, g.name) in {Ok(None), Ok(Some(id))})
    ensures r.Err? ==> db.groups == old(db.groups)
    ensures r.Ok? ==> r.value == id && db.groups == old(db.groups)[id := g]
    ensures r.Ok? && Acyclic(old(db.groups)) ==>
      (Acyclic(db.groups) <==> g.parent.None? || !WouldCreateCycle(old(db.groups), id, g.parent.value))
  {
    if id !in db.groups {
      return Err(NotFound("Group"));
    }
    var existing := FindByUserAndName(db.groups, user, g.name);
    if existing.Err? {
      return Err(existing.error);
    }
    if existing.value.Some? && existing.value.value != id {
      return Err(AlreadyExists("Group"));
    }
    UpdateKeepsAcyclicIff(db.groups, id, g);
    db.groups := db.groups[id := g];
    r := Ok(id);
  }

  /** Replacing a group whole is acyclic exactly when its new parent is none or outside its subtree. */
  lemma UpdateKeepsAcyclicIff(groups: GroupTable, id: GroupId, g: Group)
    requires id in groups && (g.parent.Some? ==> g.parent.value in groups)
    ensures Acyclic(groups) ==>
      (Acyclic(groups[id := g]) <==> g.parent.None? || !WouldCreateCycle(groups, id, g.parent.value))
  {
    if Acyclic(groups) {
      var moved := Reparent(groups, id, g.parent);
      AcyclicParentsOnly(moved, groups[id := g]);
      if g.parent.None? || !WouldCreateCycle(groups, id, g.parent.value) {
        MoveKeepsAcyclic(groups, id, g.parent);
      } else {
        UnderOwnSubtreeIsCycle(groups, id, g.parent.value);
      }
    }
  }

  /** canDeleteGroup: a stored group with no notes and no subgroups. */
  predicate CanDeleteGroup(groups: GroupTable, notes: map<NoteId, Note>, id: GroupId)
  {
    id in groups && NoteCount(notes, id) == 0 && !HasSubGroups(groups, id)
  }

  lemma CanDeleteGroupMeans(groups: GroupTable, notes: map<NoteId, Note>, id: GroupId)
    ensures id !in groups ==> !CanDeleteGroup(groups, notes, id)
    ensures CanDeleteGroup(groups, notes, id) ==>
      (forall n :: n in notes ==> notes[n].group != Some(id)) && forall c :: c in groups ==> groups[c].parent != Some(id)
  {
    if CanDeleteGroup(groups, notes, id) {
      assert NotesIn(notes, id) == {};
      forall n | n in notes ensures notes[n].group != Some(id) {
        assert n !in NotesIn(notes, id);
      }
      forall c | c in groups ensures groups[c].parent != Some(id) {
        assert c !in SubGroups(groups, id);
      }
    }
  }

  /** deleteGroup: refused unless canDeleteGroup holds; then only that group goes. */
  method DeleteGroup(db: Database, id: GroupId) returns (r: Result<()>)
    requires db.Valid()
    modifies db`groups
    ensures db.Valid()
    ensures r.Ok? <==> CanDeleteGroup(old(db.groups), db.notes, id)
    ensures r.Err? ==> r.error.InvalidState? && db.groups == old(db.groups)
    ensures r.Ok? ==> db.groups == old(db.groups) - {id}
  {
    if !CanDeleteGroup(db.groups, db.notes, id) {
      return Err(InvalidState("Cannot delete group: it contains notes or subgroups"));
    }
    CanDeleteGroupMeans(db.groups, db.notes, id);
    db.groups := db.groups - {id};
    r := Ok(());
  }

  /**
   * getOrCreateGroup: the user's group of that name, or a new Group.of owned
   * by the user; several groups of that name make the finder throw.
   */
  method GetOrCreateGroup(db: Database, user: UserId, name: string, description: Option<string>) returns (r: Result<GroupId>)
    requires db.Valid()
    modifies db`groups, db`nextId
    ensures db.Valid()
    ensures r.Err? <==> FindByUserAndName(old(db.groups), user, name).Err?
    ensures r.Err? ==> r.error == IncorrectResultSize && db.groups == old(db.groups)
    ensures r.Ok? ==> FindByUserAndName(db.groups, user, name) == Ok(Some(r.value))
    ensures ExistsByUserAndName(old(db.groups), user, name) ==> db.groups == old(db.groups)
    ensures !ExistsByUserAndName(old(db.groups), user, name) ==> r.Ok? && r.value !in old(db.groups)
    ensures !ExistsByUserAndName(old(db.groups), user, name) ==> db.groups == old(db.groups)[r.value := Groups.Of(name, description).(owner := Some(user))]
  {
    var found := FindByUserAndName(db.groups, user, name);
    if found.Err? {
      return Err(found.error);
    }
    if found.value.Some? {
      return Ok(found.value.value);
    }
    var id := Insert(db, Groups.Of(name, description).(owner := Some(user)));
    assert OwnedNamed(db.groups, user, name, id);
    assert forall x :: OwnedNamed(db.groups, user, name, x) <==> x == id by {
      forall x | OwnedNamed(db.groups, user, name, x) && x != id ensures false {
        assert OwnedNamed(old(db.groups), user, name, x);
      }
    }
    r := Ok(id);
  }

  /** createSubGroup: Group.withParent under a stored parent; no owner is set. */
  method CreateSubGroup(db: Database, parent: GroupId, name: string, description: Option<string>) returns (r: Result<GroupId>)
    requires db.Valid()
    modifies db`groups, db`nextId
    ensures db.Valid()
    ensures r.Err? <==> parent !in old(db.groups)
    ensures r.Err? ==> db.groups == old(db.groups)
    ensures r.Ok? ==> r.value !in old(db.groups) && db.groups == old(db.groups)[r.value := WithParent(name, description, parent)]
  {
    if parent !in db.groups {
      return Err(NotFound("Parent group"));
    }
    var id := Insert(db, WithParent(name, description, parent));
    r := Ok(id);
  }

  /**
   * moveGroup, as written. Moving to no parent always succeeds; otherwise the
   * new parent must be stored and the group must not be one of its proper
   * ancestors. The group itself is not caught (see MoveGroupChecked).
   */
  method MoveGroup(db: Database, id: GroupId, newParent: Option<GroupId>) returns (r: Result<()>)
    requires db.Valid()
    requires newParent.Some? && newParent.value in db.groups ==> Terminates(db.groups, newParent.value)
    modifies db`groups
    ensures db.Valid()
    ensures r.Ok? <==> (id in old(db.groups) && (newParent.Some? ==> (newParent.value in old(db.groups)
      && id !in StrictAncestors(old(db.groups), newParent.value))))
    ensures r.Err? ==> db.groups == old(db.groups)
    ensures r.Ok? ==> db.groups == Reparent(old(db.groups), id, newParent)
  {
    if id !in db.groups {
      return Err(NotFound("Group"));
    }
    if newParent.Some? {
      if newParent.value !in db.groups {
        return Err(NotFound("New parent group"));
      }
      var cyclic := IsDescendantOf(db, newParent.value, id);
      if cyclic {
        return Err(InvalidArgument("Cannot move group: would create circular reference"));
      }
    }
    db.groups := Reparent(db.groups, id, newParent);
    r := Ok(());
  }

  /** The move the cycle check evidently intends: the new parent may be neither the group nor below it. */
  method MoveGroupChecked(db: Database, id: GroupId, newParent: Option<GroupId>) returns (r: Result<()>)
    requires db.Valid() && Acyclic(db.groups)
    modifies db`groups
    ensures db.Valid() && Acyclic(db.groups)
    ensures r.Ok? <==> (id in old(db.groups) && (newParent.Some? ==> (newParent.value in old(db.groups)
      && !WouldCreateCycle(old(db.groups), id, newParent.value))))
    ensures r.Err? ==> db.groups == old(db.groups)
    ensures r.Ok? ==> db.groups == Reparent(old(db.groups), id, newParent)
  {
    if id !in db.groups {
      return Err(NotFound("Group"));
    }
    if newParent.Some? {
      if newParent.value !in db.groups {
        return Err(NotFound("New parent group"));
      }
      if WouldCreateCycle(db.groups, id, newParent.value) {
        return Err(InvalidArgument("Cannot move group: would create circular reference"));
      }
    }
    MoveKeepsAcyclic(db.groups, id, newParent);
    db.groups := Reparent(db.groups, id, newParent);
    r := Ok(());
  }

  /**
   * The as-written check lets a group become its own parent: the move is
   * accepted and afterwards the group's walk up never reaches a root.
   */
  lemma MoveUnderItselfAccepted(groups: GroupTable, id: GroupId)
    requires id in groups && Terminates(groups, id)
    ensures id !in StrictAncestors(groups, id)
    ensures WouldCreateCycle(groups, id, id)
    ensures !Terminates(Reparent(groups, id, Some(id)), id)
  {
    NotOwnAncestor(groups, id);
    ChainShape(groups, id);
    OwnParentIsCycle(groups, id);
  }

  /**
   * createDefaultGroup: a user who already has groups gets the first root
   * group by (sortOrder, name), or none when all of them have parents; a user
   * with no groups gets a new "Default" group.
   */
  method CreateDefaultGroup(db: Database, user: UserId) returns (r: Option<GroupId>)
    requires db.Valid()
    modifies db`groups, db`nextId
    ensures db.Valid()
    ensures HasAnyGroups(old(db.groups), user) ==> r == FirstRoot(old(db.groups), user) && db.groups == old(db.groups)
    ensures !HasAnyGroups(old(db.groups), user) ==> r == Some(old(db.nextId)) && r.value !in old(db.groups)
    ensures !HasAnyGroups(old(db.groups), user) ==> db.groups == old(db.groups)[r.value := DefaultGroup(user)]
    ensures db.nextId >= old(db.nextId)
  {
    if HasAnyGroups(db.groups, user) {
      return FirstRoot(db.groups, user);
    }
    var id := Insert(db, DefaultGroup(user));
    r := Some(id);
  }

  /**
   * What getDefaultGroup yields for a user: the root group named "Default"
   * in any case, else what createDefaultGroup returns (the first root
   * group, none when every group of the user has a parent, or the new
   * group with id newId for a user without groups).
   */
  function DefaultChoice(groups: GroupTable, user: UserId, newId: GroupId): (r: Result<Option<GroupId>>)
    ensures r.Err? <==> exists a, b :: IsDefaultRoot(groups, user, a) && IsDefaultRoot(groups, user, b) && a != b
    ensures r == Ok(None) <==> HasAnyGroups(groups, user) && forall id :: !IsUserRoot(groups, user, id)
    ensures r.Ok? && r.value.Some? && HasAnyGroups(groups, user) ==> IsUserRoot(groups, user, r.value.value)
    ensures !HasAnyGroups(groups, user) ==> r == Ok(Some(newId))
  {
    var found := FindDefaultGroup(groups, user);
    if found.Err? || found.value.Some? then found
    else if HasAnyGroups(groups, user) then Ok(FirstRoot(groups, user))
    else Ok(Some(newId))
  }

  /** getDefaultGroup: the user's root group named "Default" in any case, else createDefaultGroup. */
  method GetDefaultGroup(db: Database, user: UserId) returns (r: Result<Option<GroupId>>)
    requires db.Valid()
    modifies db`groups, db`nextId
    ensures db.Valid()
    ensures r == DefaultChoice(old(db.groups), user, old(db.nextId))
    ensures !HasAnyGroups(old(db.groups), user) ==> old(db.nextId) !in old(db.groups)
    ensures db.groups == if HasAnyGroups(old(db.groups), user) then old(db.groups) else old(db.groups)[old(db.nextId) := DefaultGroup(user)]
    ensures r.Ok? && r.value.Some? ==> IsUserRoot(db.groups, user, r.value.value)
    ensures db.nextId >= old(db.nextId) && (forall g :: g in old(db.groups) ==> g in db.groups)
  {
    var found := FindDefaultGroup(db.groups, user);
    if found.Err? || found.value.Some? {
      return found;
    }
    var d := CreateDefaultGroup(db, user);
    r := Ok(d);
  }
}
