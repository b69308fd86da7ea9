// Traversal of the note-link graph. One step goes from a link's source to
// its target, or from its target back to its source when the link is
// bidirectional. The recursive queries for connected notes and shortest
// paths are restated as breadth-first reachability by levels.
module LinkGraph {
  import opened Wrappers
  import opened Ids
  import opened NoteLinks

  /** n can be reached from a in one step along l. */
  predicate StepAlong(l: NoteLink, a: NoteId, b: NoteId)
  {
    (l.source == a && l.target == b) || (l.target == a && l.isBidirectional && l.source == b)
  }

  predicate Step(links: seq<StoredLink>, a: NoteId, b: NoteId)
  {
    exists i :: 0 <= i < |links| && StepAlong(links[i].link, a, b)
  }

  /** The successors along one link of the notes in from. */
  function StepsFrom(l: NoteLink, from: set<NoteId>): set<NoteId>
  {
    (if l.source in from then {l.target} else {}) + (if l.isBidirectional && l.target in from then {l.source} else {})
  }

  /** All notes one step away from some note of from. */
  function Successors(links: seq<StoredLink>, from: set<NoteId>): (r: set<NoteId>)
    decreases |links|
  {
    if |links| == 0 then {}
    else Successors(links[..|links| - 1], from) + StepsFrom(links[|links| - 1].link, from)
  }

  lemma {:induction false} SuccessorsIff(links: seq<StoredLink>, from: set<NoteId>, b: NoteId)
    ensures b in Successors(links, from) <==> exists a :: a in from && Step(links, a, b)
    decreases |links|
  {
    if |links| > 0 {
      var init := links[..|links| - 1];
      var l := links[|links| - 1].link;
      SuccessorsIff(init, from, b);
      if b in Successors(links, from) {
        if b in Successors(init, from) {
          var a, i :| a in from && 0 <= i < |init| && StepAlong(init[i].link, a, b);
          assert links[i] == init[i];
        } else if l.source in from && l.target == b {
          assert StepAlong(links[|links| - 1].link, l.source, b);
        } else {
          assert StepAlong(links[|links| - 1].link, l.target, b);
        }
      }
      if exists a :: a in from && Step(links, a, b) {
        var a, i :| a in from && 0 <= i < |links| && StepAlong(links[i].link, a, b);
        if i < |init| {
          assert init[i] == links[i];
          assert Step(init, a, b);
        }
      }
    }
  }

  /** The notes within k steps of start (level k of a breadth-first search). */
  function Reach(links: seq<StoredLink>, start: NoteId, k: nat): set<NoteId>
  {
    if k == 0 then {start}
    else Reach(links, start, k - 1) + Successors(links, Reach(links, start, k - 1))
  }

  lemma {:induction false} ReachMonotone(links: seq<StoredLink>, start: NoteId, j: nat, k: nat)
    requires j <= k
    ensures Reach(links, start, j) <= Reach(links, start, k)
    decreases k
  {
    if j < k {
      ReachMonotone(links, start, j, k - 1);
    }
  }

  /** p is a walk from a to b: consecutive notes are one step apart. */
  predicate IsWalk(links: seq<StoredLink>, a: NoteId, b: NoteId, p: seq<NoteId>)
  {
    |p| > 0 && p[0] == a && p[|p| - 1] == b
    && forall i :: 0 < i < |p| ==> Step(links, p[i - 1], p[i])
  }

  predicate Distinct(p: seq<NoteId>)
  {
    forall i, j :: 0 <= i < j < |p| ==> p[i] != p[j]
  }

  /** A path as the recursive queries build it: a walk that repeats no note. */
  predicate IsPath(links: seq<StoredLink>, a: NoteId, b: NoteId, p: seq<NoteId>)
  {
    IsWalk(links, a, b, p) && Distinct(p)
  }

  /** The end of any walk of e steps is within e steps. */
  lemma {:induction false} WalkInReach(links: seq<StoredLink>, start: NoteId, b: NoteId, p: seq<NoteId>)
    requires IsWalk(links, start, b, p)
    ensures b in Reach(links, start, |p| - 1)
    decreases |p|
  {
    if |p| > 1 {
      var q := p[..|p| - 1];
      var a := q[|q| - 1];
      WalkInReach(links, start, a, q);
      assert Step(links, p[|p| - 2], p[|p| - 1]);
      SuccessorsIff(links, Reach(links, start, |q| - 1), b);
    }
  }

  /** Everything within k steps is the end of a repeat-free path of at most k steps. */
  lemma {:induction false} ReachHasPath(links: seq<StoredLink>, start: NoteId, k: nat, b: NoteId)
    requires b in Reach(links, start, k)
    ensures exists p :: IsPath(links, start, b, p) && |p| <= k + 1
    decreases k
  {
    if k == 0 {
      assert IsPath(links, start, b, [start]);
    } else if b in Reach(links, start, k - 1) {
      ReachHasPath(links, start, k - 1, b);
    } else {
      SuccessorsIff(links, Reach(links, start, k - 1), b);
      var a :| a in Reach(links, start, k - 1) && Step(links, a, b);
      ReachHasPath(links, start, k - 1, a);
      var q :| IsPath(links, start, a, q) && |q| <= k;
      if i :| 0 <= i < |q| && q[i] == b {
        var p := q[..i + 1];
        assert IsPath(links, start, b, p);
      } else {
        var p := q + [b];
        assert IsPath(links, start, b, p) by {
          assert forall i :: 0 < i < |p| ==> Step(links, p[i - 1], p[i]) by {
            forall i | 0 < i < |p| ensures Step(links, p[i - 1], p[i]) {
              if i < |q| { assert p[i - 1] == q[i - 1] && p[i] == q[i]; }
            }
          }
        }
      }
    }
  }

  /** findConnectedNotes: within 1..maxDepth steps by a repeat-free path, the start excluded. */
  function ConnectedNotes(links: seq<StoredLink>, start: NoteId, maxDepth: int): set<NoteId>
  {
    if maxDepth <= 0 then {} else Reach(links, start, maxDepth) - {start}
  }

  /** The connected notes are exactly the ends, other than the start, of paths of 1..maxDepth steps. */
  lemma ConnectedNotesIff(links: seq<StoredLink>, start: NoteId, maxDepth: int, b: NoteId)
    ensures b in ConnectedNotes(links, start, maxDepth) <==>
      b != start && exists p :: IsPath(links, start, b, p) && 2 <= |p| <= maxDepth + 1
  {
    if b in ConnectedNotes(links, start, maxDepth) {
      ReachHasPath(links, start, maxDepth, b);
    }
    if b != start && exists p :: IsPath(links, start, b, p) && 2 <= |p| <= maxDepth + 1 {
      var p :| IsPath(links, start, b, p) && 2 <= |p| <= maxDepth + 1;
      WalkInReach(links, start, b, p);
      ReachMonotone(links, start, |p| - 1, maxDepth);
    }
  }

  lemma ConnectedNotesGrow(links: seq<StoredLink>, start: NoteId, d: int, e: int)
    requires d <= e
    ensures ConnectedNotes(links, start, d) <= ConnectedNotes(links, start, e)
  {
    if d > 0 {
      ReachMonotone(links, start, d, e);
    }
  }

  // ---------------------------------------------------------------------
  // Breadth-first search by levels.

  /** The successors of frontier along the links, computed by one pass over the table. */
  method ExpandFrontier(links: seq<StoredLink>, frontier: set<NoteId>) returns (next: set<NoteId>)
    ensures next == Successors(links, frontier)
  {
    next := {};
    var i := 0;
    while i < |links|
      invariant 0 <= i <= |links|
      invariant next == Successors(links[..i], frontier)
    {
      var l := links[i].link;
      if l.source in frontier {
        next := next + {l.target};
      }
      if l.isBidirectional && l.target in frontier {
        next := next + {l.source};
      }
      assert links[..i + 1][..i] == links[..i];
      i := i + 1;
    }
    assert links[..|links|] == links;
  }

  lemma {:induction false} SuccessorsUnion(links: seq<StoredLink>, a: set<NoteId>, b: set<NoteId>)
    ensures Successors(links, a + b) == Successors(links, a) + Successors(links, b)
    decreases |links|
  {
    if |links| > 0 {
      SuccessorsUnion(links[..|links| - 1], a, b);
    }
  }

  /** The new level only needs the successors of the previous level's new notes. */
  lemma FrontierSuffices(links: seq<StoredLink>, start: NoteId, k: nat)
    requires k > 0
    ensures Reach(links, start, k + 1) - Reach(links, start, k)
      == Successors(links, Reach(links, start, k) - Reach(links, start, k - 1)) - Reach(links, start, k)
  {
    var old_ := Reach(links, start, k - 1);
    var cur := Reach(links, start, k);
    ReachMonotone(links, start, k - 1, k);
    assert cur == old_ + (cur - old_);
    SuccessorsUnion(links, old_, cur - old_);
  }

  /** Breadth-first search by levels, with a visited set and a frontier. */
  method ConnectedNotesBfs(links: seq<StoredLink>, start: NoteId, maxDepth: int) returns (r: set<NoteId>)
    ensures r == ConnectedNotes(links, start, maxDepth)
  {
    if maxDepth <= 0 {
      return {};
    }
    var visited := {start};
    var frontier := {start};
    var depth := 0;
    while depth < maxDepth
      invariant 0 <= depth <= maxDepth
      invariant visited == Reach(links, start, depth)
      invariant frontier == if depth == 0 then {start} else Reach(links, start, depth) - Reach(links, start, depth - 1)
    {
      var next := ExpandFrontier(links, frontier);
      if depth > 0 {
        FrontierSuffices(links, start, depth);
      }
      frontier := next - visited;
      visited := visited + frontier;
      depth := depth + 1;
    }
    r := visited - {start};
  }

  // ---------------------------------------------------------------------
  // Shortest paths.

  /** The deepest depth the shortest-path query explores. */
  const MaxPathDepth := 10

  lemma StepInPrefix(links: seq<StoredLink>, n: nat, a: NoteId, b: NoteId)
    requires n <= |links| && Step(links[..n], a, b)
    ensures Step(links, a, b)
  {
    var i :| 0 <= i < n && StepAlong(links[..n][i].link, a, b);
    assert links[i] == links[..n][i];
  }

  /** A note one step before b inside within, chosen by the last link that supplies one. */
  function Predecessor(links: seq<StoredLink>, within: set<NoteId>, b: NoteId): (a: NoteId)
    requires b in Successors(links, within)
    ensures a in within && Step(links, a, b)
    decreases |links|
  {
    var init := links[..|links| - 1];
    var l := links[|links| - 1].link;
    if b in Successors(init, within) then
      var a := Predecessor(init, within, b);
      StepInPrefix(links, |links| - 1, a, b);
      a
    else if l.source in within && l.target == b then
      assert StepAlong(links[|links| - 1].link, l.source, b);
      l.source
    else
      assert StepAlong(links[|links| - 1].link, l.target, b);
      l.target
  }

  /** A walk to b built level by level backwards from the first level containing b. */
  function LevelWalk(links: seq<StoredLink>, start: NoteId, k: nat, b: NoteId): seq<NoteId>
    requires b in Reach(links, start, k)
    decreases k
  {
    if k == 0 then [start]
    else if b in Reach(links, start, k - 1) then LevelWalk(links, start, k - 1, b)
    else LevelWalk(links, start, k - 1, Predecessor(links, Reach(links, start, k - 1), b)) + [b]
  }

  /** Each note of a level walk is first reached at its own index. */
  predicate Levelled(links: seq<StoredLink>, start: NoteId, p: seq<NoteId>)
  {
    forall j :: 0 <= j < |p| ==> p[j] in Reach(links, start, j) && (j > 0 ==> p[j] !in Reach(links, start, j - 1))
  }

  lemma WalkSnoc(links: seq<StoredLink>, start: NoteId, a: NoteId, b: NoteId, q: seq<NoteId>)
    requires IsWalk(links, start, a, q) && Step(links, a, b)
    ensures IsWalk(links, start, b, q + [b])
  {
    var p := q + [b];
    forall i | 0 < i < |p| ensures Step(links, p[i - 1], p[i]) {
      if i < |q| { assert p[i - 1] == q[i - 1] && p[i] == q[i]; }
    }
  }

  lemma LevelledSnoc(links: seq<StoredLink>, start: NoteId, q: seq<NoteId>, b: NoteId)
    requires Levelled(links, start, q) && |q| > 0
    requires b in Reach(links, start, |q|) && b !in Reach(links, start, |q| - 1)
    ensures Levelled(links, start, q + [b])
  {
    var p := q + [b];
    forall j | 0 <= j < |p|
      ensures p[j] in Reach(links, start, j) && (j > 0 ==> p[j] !in Reach(links, start, j - 1))
    {
      if j < |q| { assert p[j] == q[j]; }
    }
  }

  /** A levelled walk to a note one step before b, which is first reached at level k, has k notes. */
  lemma LevelWalkFull(links: seq<StoredLink>, start: NoteId, k: nat, q: seq<NoteId>, a: NoteId, b: NoteId)
    requires k > 0 && b !in Reach(links, start, k - 1) && Step(links, a, b)
    requires IsWalk(links, start, a, q) && |q| <= k && Levelled(links, start, q)
    ensures |q| == k
  {
    if |q| < k {
      assert a in Reach(links, start, |q| - 1);
      SuccessorsIff(links, Reach(links, start, |q| - 1), b);
      ReachMonotone(links, start, |q|, k - 1);
      assert false;
    }
  }

  /** Extending a levelled walk to a by b, first reached at level k, keeps it levelled. */
  lemma LevelStep(links: seq<StoredLink>, start: NoteId, k: nat, q: seq<NoteId>, a: NoteId, b: NoteId)
    requires k > 0 && b in Reach(links, start, k) && b !in Reach(links, start, k - 1) && Step(links, a, b)
    requires IsWalk(links, start, a, q) && |q| <= k && Levelled(links, start, q)
    ensures IsWalk(links, start, b, q + [b]) && |q + [b]| <= k + 1 && Levelled(links, start, q + [b])
  {
    LevelWalkFull(links, start, k, q, a, b);
    WalkSnoc(links, start, a, b, q);
    LevelledSnoc(links, start, q, b);
  }

  lemma {:induction false} LevelWalkShape(links: seq<StoredLink>, start: NoteId, k: nat, b: NoteId)
    requires b in Reach(links, start, k)
    ensures var p := LevelWalk(links, start, k, b);
      IsWalk(links, start, b, p) && |p| <= k + 1 && Levelled(links, start, p)
    decreases k
  {
    if k > 0 && b !in Reach(links, start, k - 1) {
      var a := Predecessor(links, Reach(links, start, k - 1), b);
      LevelWalkShape(links, start, k - 1, a);
      var q := LevelWalk(links, start, k - 1, a);
      assert LevelWalk(links, start, k, b) == q + [b];
      LevelStep(links, start, k, q, a, b);
    } else if k > 0 {
      assert LevelWalk(links, start, k, b) == LevelWalk(links, start, k - 1, b);
      LevelWalkShape(links, start, k - 1, b);
    } else {
      assert Levelled(links, start, [start]);
    }
  }

  lemma LevelledDistinct(links: seq<StoredLink>, start: NoteId, p: seq<NoteId>)
    requires Levelled(links, start, p)
    ensures Distinct(p)
  {
    forall i, j | 0 <= i < j < |p| ensures p[i] != p[j] {
      ReachMonotone(links, start, i, j - 1);
    }
  }

  /** A levelled walk to b is no longer than any walk to b. */
  lemma LevelledShortest(links: seq<StoredLink>, start: NoteId, b: NoteId, p: seq<NoteId>, w: seq<NoteId>)
    requires IsWalk(links, start, b, p) && Levelled(links, start, p) && IsWalk(links, start, b, w)
    ensures |p| <= |w|
  {
    WalkInReach(links, start, b, w);
    if |w| < |p| {
      ReachMonotone(links, start, |w| - 1, |p| - 2);
    }
  }

  /** findShortestPath: none from a note to itself, else a fewest-step path of at most ten steps. */
  function ShortestPath(links: seq<StoredLink>, start: NoteId, target: NoteId): Option<seq<NoteId>>
  {
    if start == target then None
    else if target in Reach(links, start, MaxPathDepth) then Some(LevelWalk(links, start, MaxPathDepth, target))
    else None
  }

  lemma ShortestPathSpec(links: seq<StoredLink>, start: NoteId, target: NoteId)
    ensures start == target ==> ShortestPath(links, start, target).None?
    ensures ShortestPath(links, start, target).Some? ==>
      var p := ShortestPath(links, start, target).value;
      IsPath(links, start, target, p) && |p| <= MaxPathDepth + 1
      && forall w :: IsWalk(links, start, target, w) ==> |p| <= |w|
    ensures start != target && ShortestPath(links, start, target).None? ==>
      forall w :: IsWalk(links, start, target, w) ==> |w| > MaxPathDepth + 1
  {
    if start != target && target in Reach(links, start, MaxPathDepth) {
      LevelWalkShape(links, start, MaxPathDepth, target);
      var p := LevelWalk(links, start, MaxPathDepth, target);
      LevelledDistinct(links, start, p);
      forall w | IsWalk(links, start, target, w) ensures |p| <= |w| {
        LevelledShortest(links, start, target, p, w);
      }
    }
    if start != target && target !in Reach(links, start, MaxPathDepth) {
      forall w | IsWalk(links, start, target, w) ensures |w| > MaxPathDepth + 1 {
        WalkInReach(links, start, target, w);
        if |w| <= MaxPathDepth + 1 {
          ReachMonotone(links, start, |w| - 1, MaxPathDepth);
        }
      }
    }
  }
}
