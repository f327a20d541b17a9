/**
 * The relationship closure of a managed object: every identifier reachable
 * from it in one or more steps along its relationships. Targets that do not
 * resolve to an object are collected but not walked further.
 */
module RelationshipClosure {
  import opened CoreTypes

  type RelationshipName = string

  /** One object's relationships: each name mapped to the identifiers it points to. */
  type Relationships = map<RelationshipName, set<ObjectId>>

  /**
   * A snapshot of the context: the objects that resolve, with their
   * relationships. An identifier outside the domain does not resolve.
   */
  type ObjectGraph = map<ObjectId, Relationships>

  /** Every identifier any of the relationships points to. */
  function AllTargets(rels: Relationships): (ids: set<ObjectId>)
    ensures forall id :: id in ids <==> exists name :: name in rels && id in rels[name]
  {
    set name, id | name in rels && id in rels[name] :: id
  }

  /** Direct targets of `x`; an object that does not resolve has none. */
  function Targets(g: ObjectGraph, x: ObjectId): (ids: set<ObjectId>)
    ensures x !in g ==> ids == {}
  {
    if x in g then AllTargets(g[x]) else {}
  }

  /** Every identifier some resolvable object of the snapshot points to. */
  function RelatedIds(g: ObjectGraph): set<ObjectId> {
    set x, y | x in g && y in Targets(g, x) :: y
  }

  /** The targets of a resolvable object are among the related identifiers. */
  lemma TargetsAreRelated(g: ObjectGraph, x: ObjectId)
    ensures Targets(g, x) <= RelatedIds(g)
  {
  }

  /** A walk of at least one step along relationships. */
  ghost predicate IsPath(g: ObjectGraph, p: seq<ObjectId>) {
    |p| >= 2 && forall i :: 0 <= i < |p| - 1 ==> p[i + 1] in Targets(g, p[i])
  }

  /** `y` can be reached from `x` in one or more steps. */
  ghost predicate Reachable(g: ObjectGraph, x: ObjectId, y: ObjectId) {
    exists p :: IsPath(g, p) && p[0] == x && p[|p| - 1] == y
  }

  /** Every direct target is in the closure, whether or not it resolves. */
  lemma DirectTargetReachable(g: ObjectGraph, x: ObjectId, y: ObjectId)
    requires y in Targets(g, x)
    ensures Reachable(g, x, y)
  {
    assert IsPath(g, [x, y]);
  }

  /** One more step from a reachable object stays reachable. */
  lemma ReachableStep(g: ObjectGraph, x: ObjectId, y: ObjectId, z: ObjectId)
    requires Reachable(g, x, y) && z in Targets(g, y)
    ensures Reachable(g, x, z)
  {
    var p :| IsPath(g, p) && p[0] == x && p[|p| - 1] == y;
    var q := p + [z];
    assert IsPath(g, q);
  }

  /** The closure is transitively closed: what a reached object reaches is reached too. */
  lemma ReachableTransitive(g: ObjectGraph, x: ObjectId, y: ObjectId, z: ObjectId)
    requires Reachable(g, x, y) && Reachable(g, y, z)
    ensures Reachable(g, x, z)
  {
    var p :| IsPath(g, p) && p[0] == x && p[|p| - 1] == y;
    var q :| IsPath(g, q) && q[0] == y && q[|q| - 1] == z;
    var r := p + q[1..];
    forall i | 0 <= i < |r| - 1
      ensures r[i + 1] in Targets(g, r[i])
    {
      if i < |p| - 1 {
        assert r[i] == p[i] && r[i + 1] == p[i + 1];
      } else {
        assert r[i] == q[i - |p| + 1] && r[i + 1] == q[i - |p| + 2];
      }
    }
    assert IsPath(g, r);
  }

  /** The first step of a walk: a direct target that is the end, or a resolvable object the end is reachable from. */
  lemma FirstStep(g: ObjectGraph, x: ObjectId, z: ObjectId) returns (y: ObjectId)
    requires Reachable(g, x, z)
    ensures x in g && y in Targets(g, x)
    ensures y == z || (y in g && Reachable(g, y, z))
  {
    var p :| IsPath(g, p) && p[0] == x && p[|p| - 1] == z;
    y := p[1];
    if |p| > 2 {
      var q := p[1..];
      forall i | 0 <= i < |q| - 1 ensures q[i + 1] in Targets(g, q[i]) {
        assert q[i] == p[i + 1] && q[i + 1] == p[i + 2];
      }
      assert IsPath(g, q);
      assert p[2] in Targets(g, y);
    }
  }

  /** The objects reachable from `root` all lie in any set that holds its direct targets and is closed under taking targets. */
  lemma {:induction false} ClosedSetHoldsReachable(g: ObjectGraph, root: ObjectId, s: set<ObjectId>, z: ObjectId)
    requires Targets(g, root) <= s
    requires forall x {:trigger Targets(g, x)} :: x in s ==> Targets(g, x) <= s
    requires Reachable(g, root, z)
    ensures z in s
  {
    var p :| IsPath(g, p) && p[0] == root && p[|p| - 1] == z;
    PathInClosedSet(g, p, s);
  }

  lemma {:induction false} PathInClosedSet(g: ObjectGraph, p: seq<ObjectId>, s: set<ObjectId>)
    requires IsPath(g, p)
    requires Targets(g, p[0]) <= s
    requires forall x {:trigger Targets(g, x)} :: x in s ==> Targets(g, x) <= s
    ensures forall i :: 1 <= i < |p| ==> p[i] in s
  {
    if |p| > 2 {
      var q := p[..|p| - 1];
      forall i | 0 <= i < |q| - 1 ensures q[i + 1] in Targets(g, q[i]) {
        assert q[i] == p[i] && q[i + 1] == p[i + 1];
      }
      assert IsPath(g, q);
      PathInClosedSet(g, q, s);
      assert p[|p| - 2] == q[|q| - 1];
      assert p[|p| - 1] in Targets(g, p[|p| - 2]);
    }
  }

  /** Collects the targets of every relationship of one object, one relationship at a time. */
  method CollectTargets(rels: Relationships) returns (ids: set<ObjectId>)
    ensures ids == AllTargets(rels)
  {
    ids := {};
    var pending := rels.Keys;
    while pending != {}
      invariant pending <= rels.Keys
      invariant forall id :: id in ids <==> exists name :: name in rels && name !in pending && id in rels[name]
      decreases pending
    {
      var name :| name in pending;
      ids := ids + rels[name];
      pending := pending - {name};
    }
  }

  /** Every collected identifier is reachable from the root. */
  ghost predicate AllReachable(g: ObjectGraph, root: ObjectId, ids: set<ObjectId>) {
    forall y :: y in ids ==> Reachable(g, root, y)
  }

  /** Every collected identifier not waiting in the work-list has had its targets collected. */
  ghost predicate ExpandedOutside(g: ObjectGraph, ids: set<ObjectId>, work: set<ObjectId>) {
    forall x {:trigger Targets(g, x)} :: x in ids && x !in work ==> Targets(g, x) <= ids
  }

  /** Expanding one work-list entry keeps the invariants of the traversal. */
  lemma ExpandKeepsInvariant(g: ObjectGraph, root: ObjectId, ids: set<ObjectId>, work: set<ObjectId>, x: ObjectId)
    requires x in work && work <= ids && work <= g.Keys
    requires AllReachable(g, root, ids) && ExpandedOutside(g, ids, work)
    ensures AllReachable(g, root, ids + Targets(g, x))
    ensures ExpandedOutside(g, ids + Targets(g, x), (work - {x}) + (set y | y in Targets(g, x) && y !in ids && y in g))
  {
    forall y | y in Targets(g, x) ensures Reachable(g, root, y) {
      ReachableStep(g, root, x, y);
    }
  }

  /** A finite set holding the root's targets and the targets of every resolvable object. */
  lemma TraversalBound(g: ObjectGraph, root: ObjectId) returns (u: set<ObjectId>)
    ensures Targets(g, root) <= u
    ensures forall x {:trigger Targets(g, x)} :: x in g ==> Targets(g, x) <= u
  {
    u := Targets(g, root) + RelatedIds(g);
    forall x | x in g ensures Targets(g, x) <= u {
      TargetsAreRelated(g, x);
    }
  }

  /** Every identifier in the closure is a direct target of the root or of a resolvable object of the snapshot. */
  lemma {:induction false} ClosureWithinSnapshot(g: ObjectGraph, root: ObjectId, y: ObjectId)
    requires Reachable(g, root, y)
    ensures y in Targets(g, root) + RelatedIds(g)
  {
    var p :| IsPath(g, p) && p[0] == root && p[|p| - 1] == y;
    var last := p[|p| - 2];
    assert y in Targets(g, last);
    TargetsAreRelated(g, last);
  }

  /** Once nothing is left to expand, the collected identifiers are exactly the reachable ones. */
  lemma TraversalComplete(g: ObjectGraph, root: ObjectId, ids: set<ObjectId>)
    requires Targets(g, root) <= ids
    requires AllReachable(g, root, ids) && ExpandedOutside(g, ids, {})
    ensures forall y :: y in ids <==> Reachable(g, root, y)
  {
    forall z | Reachable(g, root, z) ensures z in ids {
      ClosedSetHoldsReachable(g, root, ids, z);
    }
  }

  /** Expanding `x` takes it out of the set of identifiers still to be seen or expanded. */
  lemma MeasureShrinks(universe: set<ObjectId>, ids: set<ObjectId>, work: set<ObjectId>, x: ObjectId,
                       found: set<ObjectId>, unseen: set<ObjectId>)
    requires x in work && work <= ids && found <= universe && unseen <= found - ids
    ensures (universe - (ids + found)) + ((work - {x}) + unseen) < (universe - ids) + work
  {
    assert x !in (universe - (ids + found)) + ((work - {x}) + unseen);
  }

  /**
   * The closure of `root`, computed with a visited set and a work-list so that
   * it ends on every snapshot, cyclic ones included. The result is exactly the
   * set of identifiers reachable in one or more steps, and every one of them
   * is a direct target of the root or of some resolvable object.
   */
  method RelationshipIDs(g: ObjectGraph, root: ObjectId) returns (ids: set<ObjectId>)
    ensures forall y :: y in ids <==> Reachable(g, root, y)
  {
    var rootRelationships: Relationships := if root in g then g[root] else map[];
    ids := CollectTargets(rootRelationships);
    forall y | y in ids ensures Reachable(g, root, y) {
      DirectTargetReachable(g, root, y);
    }
    var work := set y | y in ids && y in g;
    ghost var universe := TraversalBound(g, root);
    while work != {}
      invariant work <= ids <= universe
      invariant work <= g.Keys
      invariant Targets(g, root) <= ids
      invariant AllReachable(g, root, ids)
      invariant ExpandedOutside(g, ids, work)
      decreases (universe - ids) + work
    {
      var x :| x in work;
      var found := CollectTargets(g[x]);
      ExpandKeepsInvariant(g, root, ids, work, x);
      var unseen := set y | y in found && y !in ids && y in g;
      MeasureShrinks(universe, ids, work, x, found, unseen);
      work := (work - {x}) + unseen;
      ids := ids + found;
    }
    TraversalComplete(g, root, ids);
  }

  /**
   * The unguarded recursion of the original, given a budget of `depth` nested
   * calls: the direct targets of `x`, plus the closure of every target that
   * resolves. None means the budget ran out, i.e. the recursion would go
   * deeper than `depth`.
   */
  function NaiveRelationshipIDs(g: ObjectGraph, x: ObjectId, depth: nat): (r: Option<set<ObjectId>>)
    ensures r.Some? ==> depth > 0 && Targets(g, x) <= r.value
    decreases depth, 0
  {
    if depth == 0 then None
    else
      var direct := Targets(g, x);
      if exists t :: t in direct && t in g && NaiveRelationshipIDs(g, t, depth - 1).None? then None
      else Some(direct + NaiveNestedUnion(g, direct, depth - 1))
  }

  /** The union of what the nested calls on the resolvable identifiers of `ts` return. */
  function NaiveNestedUnion(g: ObjectGraph, ts: set<ObjectId>, depth: nat): set<ObjectId>
    decreases depth, 2
  {
    set t, y | t in ts && t in g && y in NaiveClosureOrEmpty(g, t, depth) :: y
  }

  /** The result of a finished nested call; an unfinished one contributes nothing (the caller has already given up). */
  function NaiveClosureOrEmpty(g: ObjectGraph, t: ObjectId, depth: nat): set<ObjectId>
    decreases depth, 1
  {
    match NaiveRelationshipIDs(g, t, depth)
    case Some(s) => s
    case None => {}
  }

  /** Whenever the original recursion finishes, it returns exactly the reachable set. */
  lemma NaiveIsReachableSet(g: ObjectGraph, x: ObjectId, depth: nat)
    requires NaiveRelationshipIDs(g, x, depth).Some?
    ensures forall y :: y in NaiveRelationshipIDs(g, x, depth).value <==> Reachable(g, x, y)
  {
    forall y | y in NaiveRelationshipIDs(g, x, depth).value ensures Reachable(g, x, y) {
      NaiveResultReachable(g, x, depth, y);
    }
    forall y | Reachable(g, x, y) ensures y in NaiveRelationshipIDs(g, x, depth).value {
      NaiveResultHoldsReachable(g, x, depth, y);
    }
  }

  /** What a finished call of the original recursion collects is reachable. */
  lemma {:induction false} NaiveResultReachable(g: ObjectGraph, x: ObjectId, depth: nat, y: ObjectId)
    requires NaiveRelationshipIDs(g, x, depth).Some? && y in NaiveRelationshipIDs(g, x, depth).value
    ensures Reachable(g, x, y)
    decreases depth
  {
    var direct := Targets(g, x);
    if y in direct {
      DirectTargetReachable(g, x, y);
    } else {
      var t :| t in direct && t in g && y in NaiveClosureOrEmpty(g, t, depth - 1);
      NaiveResultReachable(g, t, depth - 1, y);
      DirectTargetReachable(g, x, t);
      ReachableTransitive(g, x, t, y);
    }
  }

  /** A finished call of the original recursion collects everything reachable. */
  lemma {:induction false} NaiveResultHoldsReachable(g: ObjectGraph, x: ObjectId, depth: nat, y: ObjectId)
    requires NaiveRelationshipIDs(g, x, depth).Some? && Reachable(g, x, y)
    ensures y in NaiveRelationshipIDs(g, x, depth).value
    decreases depth
  {
    var direct := Targets(g, x);
    var t := FirstStep(g, x, y);
    if t != y {
      assert NaiveRelationshipIDs(g, t, depth - 1).Some?;
      NaiveResultHoldsReachable(g, t, depth - 1, y);
      assert y in NaiveClosureOrEmpty(g, t, depth - 1);
      assert y in NaiveNestedUnion(g, direct, depth - 1);
    }
  }

  /**
   * A ranking that strictly decreases along every relationship between
   * resolvable objects met from `x` on (`x` itself and what it reaches): no
   * cycle is reachable from `x`. Cycles elsewhere in the snapshot do not matter.
   */
  ghost predicate RankedFrom(g: ObjectGraph, rank: ObjectId -> nat, x: ObjectId) {
    forall u, v :: (u == x || Reachable(g, x, u)) && u in g && v in g && v in Targets(g, u) ==> rank(v) < rank(u)
  }

  /** A ranking from `x` is a ranking from each of its direct targets. */
  lemma RankedFromTarget(g: ObjectGraph, rank: ObjectId -> nat, x: ObjectId, t: ObjectId)
    requires RankedFrom(g, rank, x) && t in Targets(g, x)
    ensures RankedFrom(g, rank, t)
  {
    DirectTargetReachable(g, x, t);
    forall u | Reachable(g, t, u) ensures Reachable(g, x, u) {
      ReachableTransitive(g, x, t, u);
    }
  }

  /** Along a walk from `x` whose end resolves, the rank strictly decreases. */
  lemma {:induction false} RankDecreasesAlongPaths(g: ObjectGraph, rank: ObjectId -> nat, x: ObjectId, y: ObjectId)
    requires RankedFrom(g, rank, x)
    requires Reachable(g, x, y) && y in g
    ensures x in g && rank(y) < rank(x)
    ensures x != y
    decreases rank(x)
  {
    var t := FirstStep(g, x, y);
    if t != y {
      RankedFromTarget(g, rank, x, t);
      RankDecreasesAlongPaths(g, rank, t, y);
    }
  }

  /** A ranking from `x` rules out every cycle reachable from `x`: the case `NaiveDivergesOnCycle` covers cannot arise. */
  lemma RankedHasNoReachableCycle(g: ObjectGraph, rank: ObjectId -> nat, x: ObjectId, y: ObjectId)
    requires RankedFrom(g, rank, x) && Reachable(g, x, y)
    ensures !Reachable(g, y, y)
  {
    if Reachable(g, y, y) {
      var t := FirstStep(g, y, y);
      forall u | Reachable(g, y, u) ensures Reachable(g, x, u) {
        ReachableTransitive(g, x, y, u);
      }
      assert RankedFrom(g, rank, y);
      RankDecreasesAlongPaths(g, rank, y, y);
    }
  }

  /** When no cycle is reachable (a ranking from `x` exists), the original recursion finishes within rank + 1 nested calls. */
  lemma {:induction false} NaiveTerminatesWhenRanked(g: ObjectGraph, rank: ObjectId -> nat, x: ObjectId, depth: nat)
    requires RankedFrom(g, rank, x)
    requires depth > rank(x)
    ensures NaiveRelationshipIDs(g, x, depth).Some?
    decreases depth
  {
    var direct := Targets(g, x);
    forall t | t in direct && t in g
      ensures NaiveRelationshipIDs(g, t, depth - 1).Some?
    {
      RankedFromTarget(g, rank, x, t);
      NaiveTerminatesWhenRanked(g, rank, t, depth - 1);
    }
  }

  /** Without a reachable cycle the original recursion and the work-list closure agree: both give the reachable set. */
  lemma NaiveAgreesOnAcyclic(g: ObjectGraph, rank: ObjectId -> nat, x: ObjectId)
    requires RankedFrom(g, rank, x)
    ensures NaiveRelationshipIDs(g, x, rank(x) + 1).Some?
    ensures forall y :: y in NaiveRelationshipIDs(g, x, rank(x) + 1).value <==> Reachable(g, x, y)
  {
    NaiveTerminatesWhenRanked(g, rank, x, rank(x) + 1);
    NaiveIsReachableSet(g, x, rank(x) + 1);
  }

  /** When a cycle is reachable from `x` (A -> B -> A, say), the original recursion never finishes, whatever the budget. */
  lemma {:induction false} NaiveDivergesOnCycle(g: ObjectGraph, x: ObjectId, y: ObjectId, depth: nat)
    requires Reachable(g, x, y) && Reachable(g, y, y)
    ensures NaiveRelationshipIDs(g, x, depth).None?
    decreases depth
  {
    if depth > 0 {
      var t := FirstStep(g, x, y);
      assert t in g && Reachable(g, t, y) by {
        if t == y {
          var u := FirstStep(g, y, y);
        }
      }
      NaiveDivergesOnCycle(g, t, y, depth - 1);
    }
  }

  /** The inverse-relationship case: A -> B -> A makes the original recursion run out of every budget. */
  lemma InverseRelationshipDiverges(depth: nat)
    ensures var a, b := 1, 2;
            var g: ObjectGraph := map[a := map["contacts" := {b}], b := map["groups" := {a}]];
            NaiveRelationshipIDs(g, a, depth).None?
  {
    var a, b := 1, 2;
    var g: ObjectGraph := map[a := map["contacts" := {b}], b := map["groups" := {a}]];
    assert b in g[a]["contacts"] && a in g[b]["groups"];
    assert IsPath(g, [a, b, a]);
    NaiveDivergesOnCycle(g, a, a, depth);
  }
}
