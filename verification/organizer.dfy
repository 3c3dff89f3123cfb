/**
 * The hierarchy reconstruction of proposedmethod/packageorganizer.py (lines 90-224): a
 * queue of candidate edges drained in descending score order, assigning each group its
 * best parent, keeping the runners-up as backups, and merging the groups of every loop
 * that an assignment closes into one new group.
 */
module Organizer {
  import opened Wrappers
  import opened Seqs
  import opened Candidates
  import opened Containment
  import opened Folding

  /** The script's variables between two iterations of its main loop. */
  datatype State = State(
    contained: ContainmentMap,          // is_contained_in
    groupOf: Registry,                  // group_map, keyed by package instead of 1-tuple
    backups: map<Group, seq<Edge>>,     // backup_projections
    queue: seq<Edge>)                   // queue, in dictionary order

  // ---- Invariant ----

  /** Queue order, unique keys, and every queued edge leads from a current group to an outside package. */
  ghost predicate QueueOk(st: State)
  {
    && Sorted(st.queue)
    && UniqueKeys(st.queue)
    && forall e | e in st.queue ::
         && e.child in st.contained
         && e.child in st.backups
         && e.parent in st.groupOf
         && e.parent !in e.child
  }

  /** Every assigned group has a backup list, and every backup leads to a known package. */
  ghost predicate BackupsOk(st: State)
  {
    && (forall g | g in st.contained && st.contained[g].Some? :: g in st.backups)
    && (forall g, e | g in st.backups && e in st.backups[g] :: e.parent in st.groupOf)
  }

  ghost predicate Inv(st: State)
  {
    && WellFormed(st.contained, st.groupOf)
    && Acyclic(st.contained, st.groupOf)
    && QueueOk(st)
    && BackupsOk(st)
  }

  // ---- Initialisation (packageorganizer.py:90-113) ----

  /** The packages with an embedding, and the root package if it has one. */
  function Names(pkgs: seq<Name>, root: Option<Name>): set<Name>
  {
    (set p | p in pkgs) + (if root.Some? then {root.value} else {})
  }

  /** Maps the one-member group of every name in `names` to `v`. */
  function Singletons<V>(names: set<Name>, v: V): (m: map<Group, V>)
    ensures forall x :: {x} in m <==> x in names
    ensures forall g | g in m :: m[g] == v && |g| == 1
  {
    var m := map x | x in names :: {x} := v;
    assert forall x :: {x} in m ==> x in names by {
      forall x | {x} in m
        ensures x in names
      {
        var y :| y in names && {x} == {y};
        assert x in {y};
      }
    }
    assert forall g | g in m :: |g| == 1 by {
      forall g | g in m
        ensures |g| == 1
      {
        var y :| y in names && g == {y};
      }
    }
    m
  }

  /** Puts every name in `names` in a group of its own. */
  function OwnGroups(names: set<Name>): (m: map<Name, Group>)
    ensures m.Keys == names
    ensures forall x | x in m :: m[x] == {x}
  {
    map x | x in names :: {x}
  }

  /** The state before the first iteration. */
  function Init(pkgs: seq<Name>, root: Option<Name>, score: (Name, Name) -> real): (st: State)
    requires Distinct(pkgs)
    requires root.Some? ==> root.value !in pkgs
  {
    var names := Names(pkgs, root);
    State(
      Singletons(names, None),
      OwnGroups(names),
      Singletons(set p | p in pkgs, []),
      SortDesc(InitialEdges(pkgs, root, score)))
  }

  /**
   * Every name starts in its own unassigned group (the dictionaries `is_contained_in` and
   * `group_map`, :93-95 and :109-111); only the packages get a backup list, and it is empty.
   */
  lemma InitGroups(pkgs: seq<Name>, root: Option<Name>, score: (Name, Name) -> real)
    requires Distinct(pkgs)
    requires root.Some? ==> root.value !in pkgs
    ensures var st := Init(pkgs, root, score);
      && st.groupOf.Keys == Names(pkgs, root)
      && (forall x | x in Names(pkgs, root) :: st.groupOf[x] == {x})
      && (forall x :: {x} in st.contained <==> x in Names(pkgs, root))
      && (forall g | g in st.contained :: st.contained[g] == None && |g| == 1)
      && st.backups.Keys == (set p | p in pkgs :: {p})
      && (forall p | p in pkgs :: st.backups[{p}] == [])
  {
    var st := Init(pkgs, root, score);
    assert st.groupOf == OwnGroups(Names(pkgs, root));
    assert st.contained == Singletons(Names(pkgs, root), None);
    assert st.backups == Singletons(set p | p in pkgs, []);
    forall g | g in st.backups
      ensures g in (set p | p in pkgs :: {p})
    {
      var x :| x in g;
      SingletonOf(g, x);
    }
  }

  /** A one-element set is the singleton of its element. */
  lemma SingletonOf<T>(g: set<T>, x: T)
    requires |g| == 1 && x in g
    ensures g == {x}
  {
    assert |g - {x}| == 0;
  }

  /** The initial queue holds exactly the enumerated candidates, sorted by descending score (:103-113). */
  lemma InitQueue(pkgs: seq<Name>, root: Option<Name>, score: (Name, Name) -> real)
    requires Distinct(pkgs)
    requires root.Some? ==> root.value !in pkgs
    ensures var q := Init(pkgs, root, score).queue;
      && Sorted(q)
      && (forall e :: e in q <==> e in InitialEdges(pkgs, root, score))
      && (forall v :: WithScore(q, v) == WithScore(InitialEdges(pkgs, root, score), v))
  {
    assert Init(pkgs, root, score).queue == SortDesc(InitialEdges(pkgs, root, score));
  }

  /** The initial state satisfies the invariant. */
  lemma InitInv(pkgs: seq<Name>, root: Option<Name>, score: (Name, Name) -> real)
    requires Distinct(pkgs)
    requires root.Some? ==> root.value !in pkgs
    ensures Inv(Init(pkgs, root, score))
  {
    var st := Init(pkgs, root, score);
    InitGroups(pkgs, root, score);
    InitQueue(pkgs, root, score);
    var names := Names(pkgs, root);
    var c, gm := st.contained, st.groupOf;
    forall g | g in c
      ensures g != {} && (forall y | y in g :: y in gm && gm[y] == g) && ChainTo(c, gm, g, g, 0)
    {
      var x :| x in names && g == {x};
      assert x in g;
    }
    assert Partitioned(c, gm);
    assert Acyclic(c, gm);
    EnumerateUnique(pkgs, pkgs, root, score);
    SortUnique(InitialEdges(pkgs, root, score));
    forall e | e in st.queue
      ensures e.child in c && e.child in st.backups && e.parent in gm && e.parent !in e.child
    {
      var i :| 0 <= i < |pkgs| && e.child == {pkgs[i]} && e.score == score(pkgs[i], e.parent)
               && ((e.parent in pkgs && e.parent != pkgs[i]) || root == Some(e.parent));
    }
  }

  // ---- Merging a loop (packageorganizer.py:141-215) ----

  /** The groups on a loop: the probe's groups and the child (`involved`, :141-145). */
  function Involved(child: Group, path: seq<Group>): set<Group>
  {
    (set g | g in path) + {child}
  }

  /** The child and the groups of the path have backup lists. */
  ghost predicate Backed(backups: map<Group, seq<Edge>>, child: Group, path: seq<Group>)
  {
    child in backups && forall g | g in path :: g in backups
  }

  /** What a merge needs of the state: the groups exist and have backup lists. */
  ghost predicate MergeReady(st: State, child: Group, path: seq<Group>)
  {
    && Partitioned(st.contained, st.groupOf)
    && path != [] && Distinct(path) && child !in path
    && child in st.contained && child in st.backups
    && (forall g | g in path :: g in st.contained && g in st.backups)
  }

  /**
   * The edges folded into the new group: the merged groups' queued edges in queue order,
   * then their backups, group by group (the probe's groups, then the child), all without
   * edges toward a member of the new group.
   */
  function Folded(queue: seq<Edge>, backups: map<Group, seq<Edge>>, child: Group, path: seq<Group>): (r: seq<Edge>)
    requires Backed(backups, child, path)
    ensures forall e | e in r :: e.parent !in Members(Involved(child, path))
  {
    var merged := Involved(child, path);
    var group := Members(merged);
    ParentNotIn(ChildIn(queue, merged), group) + BackupsOf(path + [child], backups, group)
  }

  /** One averaged edge from the new group per parent of a folded edge (:196-199). */
  function FreshEdges(queue: seq<Edge>, backups: map<Group, seq<Edge>>, child: Group, path: seq<Group>): seq<Edge>
    requires Backed(backups, child, path)
  {
    var folded := Folded(queue, backups, child, path);
    var parents := Dedup(Parents(folded));
    assert forall p | p in parents :: ScoresToward(folded, p) != [] by {
      forall p | p in parents
        ensures ScoresToward(folded, p) != []
      {
        ScoresTowardNonEmpty(folded, p);
      }
    }
    Averaged(Members(Involved(child, path)), parents, folded)
  }

  /** The merged groups that still had queued edges (`_replaced_keys`, :169). */
  function Replaced(queue: seq<Edge>, merged: set<Group>): set<Group>
  {
    set e | e in ChildIn(queue, merged) :: e.child
  }

  /**
   * Merges the child and the groups of the probe path into one new group and rebuilds the
   * queue from the edges that stay and one averaged edge per outside parent, re-sorted.
   */
  function Merge(st: State, child: Group, path: seq<Group>): (r: State)
    requires MergeReady(st, child, path)
    ensures r.groupOf.Keys == st.groupOf.Keys
    ensures Members(Involved(child, path)) in r.contained
  {
    var merged := Involved(child, path);
    var group := Members(merged);
    State(
      MergeContainment(st.contained, merged, group),
      Regroup(st.groupOf, group),
      (st.backups - Replaced(st.queue, merged))[group := []],
      SortDesc(ChildNotIn(st.queue, merged) + FreshEdges(st.queue, st.backups, child, path)))
  }

  /**
   * A merge replaces the containment entries of the merged groups by one entry for the new
   * group, the union of their packages, which starts unassigned.
   */
  lemma MergeContainmentShape(st: State, child: Group, path: seq<Group>)
    requires MergeReady(st, child, path)
    ensures var r := Merge(st, child, path);
            var merged := Involved(child, path);
            var group := Members(merged);
            && group == (set g, x | g in merged && x in g :: x)
            && r.contained.Keys == (st.contained.Keys - merged) + {group}
            && r.contained[group] == None
            && (forall g | g in r.contained && g != group :: r.contained[g] == st.contained[g])
  {
  }

  /** After a merge every member of the new group resolves to it; other packages keep their group. */
  lemma MergeRegistryShape(st: State, child: Group, path: seq<Group>)
    requires MergeReady(st, child, path)
    ensures var r := Merge(st, child, path);
            var group := Members(Involved(child, path));
            forall x | x in r.groupOf :: r.groupOf[x] == if x in group then group else st.groupOf[x]
  {
  }

  /**
   * The merged groups that still had queued edges lose their backup lists (stale lists of the
   * others stay); the new group starts with an empty one.
   */
  lemma MergeBackupsShape(st: State, child: Group, path: seq<Group>)
    requires MergeReady(st, child, path)
    ensures var r := Merge(st, child, path);
            var merged := Involved(child, path);
            var group := Members(merged);
            && r.backups.Keys == (st.backups.Keys - Replaced(st.queue, merged)) + {group}
            && r.backups[group] == []
            && (forall g | g in r.backups && g != group :: r.backups[g] == st.backups[g])
  {
  }

  /** The folded scores toward `p`: the merged groups' queued scores, then their backup scores. */
  function FoldedScores(queue: seq<Edge>, backups: map<Group, seq<Edge>>, child: Group, path: seq<Group>, p: Name): seq<real>
    requires Backed(backups, child, path)
  {
    ScoresToward(ChildIn(queue, Involved(child, path)), p) + BackupScores(path + [child], backups, p)
  }

  /** Some queued or backup edge of a merged group leads to `p`. */
  ghost predicate FoldsToward(queue: seq<Edge>, backups: map<Group, seq<Edge>>, merged: set<Group>, p: Name)
  {
    || (exists e | e in queue :: e.child in merged && e.parent == p)
    || (exists g, e | g in merged && g in backups && e in backups[g] :: e.parent == p)
  }

  lemma FoldedParent(st: State, child: Group, path: seq<Group>, p: Name)
    requires MergeReady(st, child, path)
    ensures (exists e | e in Folded(st.queue, st.backups, child, path) :: e.parent == p) <==>
      p !in Members(Involved(child, path)) && FoldsToward(st.queue, st.backups, Involved(child, path), p)
  {
    var merged := Involved(child, path);
    var group := Members(merged);
    var order := path + [child];
    var removed := ChildIn(st.queue, merged);
    var backed := BackupsOf(order, st.backups, group);
    var folded := Folded(st.queue, st.backups, child, path);
    assert folded == ParentNotIn(removed, group) + backed;
    if e :| e in folded && e.parent == p {
      if e in ParentNotIn(removed, group) {
        assert e in st.queue && e.child in merged;
      } else {
        assert e in backed;
        var g :| g in order && e in st.backups[g];
        assert g in merged;
      }
    }
    if p !in group && FoldsToward(st.queue, st.backups, merged, p) {
      if e :| e in st.queue && e.child in merged && e.parent == p {
        assert e in removed;
        assert e in folded;
      } else {
        var g, e :| g in merged && g in st.backups && e in st.backups[g] && e.parent == p;
        assert g in order;
        assert e in backed;
        assert e in folded;
      }
    }
  }

  lemma FoldedScoresOutside(st: State, child: Group, path: seq<Group>, p: Name)
    requires MergeReady(st, child, path)
    requires p !in Members(Involved(child, path))
    ensures ScoresToward(Folded(st.queue, st.backups, child, path), p) == FoldedScores(st.queue, st.backups, child, path, p)
  {
    var merged := Involved(child, path);
    var group := Members(merged);
    var removed := ChildIn(st.queue, merged);
    ScoresTowardAppend(ParentNotIn(removed, group), BackupsOf(path + [child], st.backups, group), p);
    ScoresTowardOutside(removed, group, p);
    BackupScoresOutside(path + [child], st.backups, group, p);
  }

  /** The queue after a merge holds the edges that stay and the new group's edges, nothing else. */
  lemma MergeQueueMembers(st: State, child: Group, path: seq<Group>)
    requires MergeReady(st, child, path)
    requires forall e | e in st.queue :: e.child in st.contained
    ensures var r := Merge(st, child, path);
            var merged := Involved(child, path);
            var group := Members(merged);
            && group !in st.contained
            && group !in merged
            && (forall e :: e in r.queue <==>
                  (e in st.queue && e.child !in merged) || e in FreshEdges(st.queue, st.backups, child, path))
            && (forall e | e in FreshEdges(st.queue, st.backups, child, path) :: e.child == group)
  {
    var merged := Involved(child, path);
    var group := Members(merged);
    assert path[0] in merged && child in merged && path[0] != child;
    MergedGroupNew(st.contained, st.groupOf, merged, group, path[0], child);
  }

  /**
   * After a merge no queued edge leaves a merged group, and the queued edges of the other
   * groups all stay.
   */
  lemma MergeQueueKept(st: State, child: Group, path: seq<Group>)
    requires MergeReady(st, child, path)
    requires forall e | e in st.queue :: e.child in st.contained
    ensures var r := Merge(st, child, path);
            var merged := Involved(child, path);
            var group := Members(merged);
            && (forall e | e in r.queue :: e.child !in merged)
            && (forall e :: e in r.queue && e.child != group <==> e in st.queue && e.child !in merged)
  {
    MergeQueueMembers(st, child, path);
  }

  /**
   * Every edge of the new group leads outside it and scores the mean of the merged groups'
   * queued and backup scores toward its parent.
   */
  lemma MergeQueueMeans(st: State, child: Group, path: seq<Group>)
    requires MergeReady(st, child, path)
    requires forall e | e in st.queue :: e.child in st.contained
    ensures var r := Merge(st, child, path);
            var group := Members(Involved(child, path));
            forall e | e in r.queue && e.child == group ::
              && e.parent !in group
              && FoldedScores(st.queue, st.backups, child, path, e.parent) != []
              && e.score == Mean(FoldedScores(st.queue, st.backups, child, path, e.parent))
  {
    var r := Merge(st, child, path);
    var group := Members(Involved(child, path));
    MergeQueueMembers(st, child, path);
    forall e | e in r.queue && e.child == group
      ensures && e.parent !in group
              && FoldedScores(st.queue, st.backups, child, path, e.parent) != []
              && e.score == Mean(FoldedScores(st.queue, st.backups, child, path, e.parent))
    {
      assert e in FreshEdges(st.queue, st.backups, child, path);
      FreshEdgeMean(st, child, path, e);
    }
  }

  lemma FreshEdgeMean(st: State, child: Group, path: seq<Group>, e: Edge)
    requires MergeReady(st, child, path)
    requires e in FreshEdges(st.queue, st.backups, child, path)
    ensures e.parent !in Members(Involved(child, path))
    ensures FoldedScores(st.queue, st.backups, child, path, e.parent) != []
    ensures e.score == Mean(FoldedScores(st.queue, st.backups, child, path, e.parent))
  {
    FoldedParent(st, child, path, e.parent);
    FoldedScoresOutside(st, child, path, e.parent);
    ScoresTowardNonEmpty(Folded(st.queue, st.backups, child, path), e.parent);
  }

  /** When every folded score toward a parent reaches a bound, so does the new group's edge toward it. */
  lemma FreshEdgeAtLeast(st: State, child: Group, path: seq<Group>, e: Edge, lo: real)
    requires MergeReady(st, child, path)
    requires e in FreshEdges(st.queue, st.backups, child, path)
    requires forall v | v in FoldedScores(st.queue, st.backups, child, path, e.parent) :: v >= lo
    ensures e.score >= lo
  {
    FreshEdgeMean(st, child, path, e);
    var xs := FoldedScores(st.queue, st.backups, child, path, e.parent);
    assert forall i | 0 <= i < |xs| :: xs[i] in xs;
    MeanLowerBound(xs, lo);
  }

  /**
   * The new group gets an edge toward exactly the packages outside it that a merged group's
   * queued or backup edges lead to.
   */
  lemma MergeQueueParents(st: State, child: Group, path: seq<Group>, p: Name)
    requires MergeReady(st, child, path)
    requires forall e | e in st.queue :: e.child in st.contained
    ensures var r := Merge(st, child, path);
            var merged := Involved(child, path);
            var group := Members(merged);
            (exists e | e in r.queue :: e.child == group && e.parent == p) <==>
              p !in group && FoldsToward(st.queue, st.backups, merged, p)
  {
    var r := Merge(st, child, path);
    var group := Members(Involved(child, path));
    var folded := Folded(st.queue, st.backups, child, path);
    MergeQueueMembers(st, child, path);
    FoldedParent(st, child, path, p);
    if p in Dedup(Parents(folded)) {
      ScoresTowardNonEmpty(folded, p);
      var e := Edge(group, p, Mean(ScoresToward(folded, p)));
      assert e in FreshEdges(st.queue, st.backups, child, path);
    }
  }

  /** The rebuilt queue is sorted again and still keyed uniquely. */
  /**
   * The re-sort after a merge is stable: among the edges of any one score, the edges that
   * stay keep their old order and come before the new group's edges, which the source adds
   * at the end of the dictionary (:196-199, :215).
   */
  lemma MergeQueueStable(st: State, child: Group, path: seq<Group>, v: real)
    requires MergeReady(st, child, path)
    ensures WithScore(Merge(st, child, path).queue, v)
              == ChildNotIn(WithScore(st.queue, v), Involved(child, path))
                 + WithScore(FreshEdges(st.queue, st.backups, child, path), v)
  {
    var merged := Involved(child, path);
    var kept := ChildNotIn(st.queue, merged);
    var added := FreshEdges(st.queue, st.backups, child, path);
    assert Merge(st, child, path).queue == SortDesc(kept + added);
    WithScoreAppend(kept, added, v);
    ChildNotInWithScore(st.queue, merged, v);
  }

  lemma MergeQueueOrder(st: State, child: Group, path: seq<Group>)
    requires MergeReady(st, child, path)
    requires UniqueKeys(st.queue)
    requires forall e | e in st.queue :: e.child in st.contained
    ensures Sorted(Merge(st, child, path).queue)
    ensures UniqueKeys(Merge(st, child, path).queue)
  {
    var merged := Involved(child, path);
    var kept := ChildNotIn(st.queue, merged);
    var newEdges := FreshEdges(st.queue, st.backups, child, path);
    MergeQueueMembers(st, child, path);
    ChildNotInUnique(st.queue, merged);
    UniqueAppend(kept, newEdges);
    SortUnique(kept + newEdges);
  }

  // ---- Preservation of the invariant by each branch of an iteration ----

  lemma TailKeeps(q: seq<Edge>)
    requires q != [] && Sorted(q) && UniqueKeys(q)
    ensures Sorted(q[1..]) && UniqueKeys(q[1..])
    ensures forall e | e in q[1..] :: e in q
  {
  }

  /** Dropping the head of the queue keeps the invariant. */
  lemma DiscardInv(st: State)
    requires Inv(st) && st.queue != []
    ensures Inv(st.(queue := st.queue[1..]))
  {
    TailKeeps(st.queue);
  }

  /** Saving the head as a backup of its (assigned) child keeps the invariant. */
  lemma BackupInv(st: State)
    requires Inv(st) && st.queue != []
    requires st.contained[st.queue[0].child].Some?
    ensures var e := st.queue[0];
            Inv(st.(queue := st.queue[1..], backups := st.backups[e.child := st.backups[e.child] + [e]]))
  {
    TailKeeps(st.queue);
    var e := st.queue[0];
    var r := st.(queue := st.queue[1..], backups := st.backups[e.child := st.backups[e.child] + [e]]);
    forall g, b | g in r.backups && b in r.backups[g]
      ensures b.parent in r.groupOf
    {
      if g == e.child && b !in st.backups[g] {
        assert b == e;
      }
    }
  }

  /** Assigning the head's parent to its child keeps the invariant when the probe finds no loop. */
  lemma AssignInv(st: State, top: Group)
    requires Inv(st) && st.queue != []
    requires st.contained[st.queue[0].child] == None
    requires top != st.queue[0].child
    requires exists d :: ChainTo(st.contained, st.groupOf, st.groupOf[st.queue[0].parent], top, d)
    ensures var e := st.queue[0];
            Inv(st.(queue := st.queue[1..], contained := st.contained[e.child := Some(e.parent)]))
  {
    var e := st.queue[0];
    var d :| ChainTo(st.contained, st.groupOf, st.groupOf[e.parent], top, d);
    assert e in st.queue;
    DiscardInv(st);
    AssignKeepsWellFormed(st.contained, st.groupOf, e.child, e.parent);
    AssignKeepsAcyclic(st.contained, st.groupOf, e.child, e.parent, top, d);
    AssignKeepsQueue(st.(queue := st.queue[1..]), e.child, Some(e.parent));
  }

  /** Changing the entry of a known group touches neither the queue's nor the backups' conditions. */
  lemma AssignKeepsQueue(st: State, child: Group, v: Option<Name>)
    requires QueueOk(st) && BackupsOk(st) && child in st.contained && child in st.backups
    ensures QueueOk(st.(contained := st.contained[child := v]))
    ensures BackupsOk(st.(contained := st.contained[child := v]))
  {
    assert st.contained[child := v].Keys == st.contained.Keys;
  }

  /** A loop found by the probe can be merged once the head is popped. */
  lemma LoopReady(st: State, path: seq<Group>)
    requires Inv(st) && st.queue != []
    requires st.contained[st.queue[0].child] == None
    requires LoopPath(st.contained, st.groupOf, st.queue[0].child, st.groupOf[st.queue[0].parent], path)
    requires Distinct(path)
    ensures MergeReady(st.(queue := st.queue[1..]), st.queue[0].child, path)
  {
    forall g | g in path
      ensures g in st.contained && g in st.backups
    {
      var i :| 0 <= i < |path| && path[i] == g;
    }
  }

  /** The child's own entry, assigned just before the probe, is dropped by the merge anyway. */
  lemma AssignedMerge(st: State, child: Group, v: Option<Name>, path: seq<Group>)
    requires MergeReady(st, child, path)
    ensures MergeReady(st.(contained := st.contained[child := v]), child, path)
    ensures Merge(st.(contained := st.contained[child := v]), child, path) == Merge(st, child, path)
  {
    AssignedReady(st, child, v, path);
    AssignedContainment(st.contained, child, v, Involved(child, path), Members(Involved(child, path)));
  }

  lemma AssignedReady(st: State, child: Group, v: Option<Name>, path: seq<Group>)
    requires MergeReady(st, child, path)
    ensures MergeReady(st.(contained := st.contained[child := v]), child, path)
  {
    assert st.contained[child := v].Keys == st.contained.Keys;
  }

  lemma AssignedContainment(c: ContainmentMap, child: Group, v: Option<Name>, merged: set<Group>, group: Group)
    requires child in merged
    ensures MergeContainment(c[child := v], merged, group) == MergeContainment(c, merged, group)
  {
    assert c[child := v] - merged == c - merged;
  }

  lemma ReplaceCard<T>(keys: set<T>, merged: set<T>, group: T, a: T, b: T)
    requires merged <= keys && a in merged && b in merged && a != b
    requires group !in keys - merged
    ensures |(keys - merged) + {group}| < |keys|
  {
    var others := merged - {a, b};
    assert merged == {a, b} + others && {a, b} !! others;
    assert keys == (keys - merged) + merged && (keys - merged) !! merged;
  }

  /** An edge of the new group leads from it to a known package outside it. */
  lemma FreshEdgeOk(st: State, child: Group, path: seq<Group>, e: Edge)
    requires QueueOk(st) && BackupsOk(st) && MergeReady(st, child, path)
    requires e in FreshEdges(st.queue, st.backups, child, path)
    ensures var r := Merge(st, child, path);
            e.child in r.contained && e.child in r.backups && e.parent in r.groupOf && e.parent !in e.child
  {
    var merged := Involved(child, path);
    FreshEdgeChild(st, child, path, e);
    FreshEdgeMean(st, child, path, e);
    FoldedParent(st, child, path, e.parent);
    FoldsTowardKnown(st, merged, e.parent);
  }

  lemma FreshEdgeChild(st: State, child: Group, path: seq<Group>, e: Edge)
    requires MergeReady(st, child, path)
    requires e in FreshEdges(st.queue, st.backups, child, path)
    ensures e.child == Members(Involved(child, path))
  {
  }

  /** A package some queued or backup edge leads to is known. */
  lemma FoldsTowardKnown(st: State, merged: set<Group>, p: Name)
    requires QueueOk(st) && BackupsOk(st)
    requires FoldsToward(st.queue, st.backups, merged, p)
    ensures p in st.groupOf
  {
  }

  /** An edge a merge leaves in the queue still leads from a current group with a backup list. */
  lemma KeptEdgeOk(st: State, child: Group, path: seq<Group>, e: Edge)
    requires Inv(st) && MergeReady(st, child, path)
    requires e in st.queue && e.child !in Involved(child, path)
    ensures var r := Merge(st, child, path);
            e.child in r.contained && e.child in r.backups && e.parent in r.groupOf && e.parent !in e.child
  {
    var merged := Involved(child, path);
    MergeBackupsShape(st, child, path);
    assert e.child !in Replaced(st.queue, merged);
  }

  /** The queue rebuilt by a merge satisfies the queue part of the invariant. */
  lemma MergeQueueOk(st: State, child: Group, path: seq<Group>)
    requires Inv(st) && MergeReady(st, child, path)
    ensures QueueOk(Merge(st, child, path))
  {
    var r := Merge(st, child, path);
    MergeQueueMembers(st, child, path);
    MergeQueueOrder(st, child, path);
    forall e | e in r.queue
      ensures e.child in r.contained && e.child in r.backups
      ensures e.parent in r.groupOf && e.parent !in e.child
    {
      if e in FreshEdges(st.queue, st.backups, child, path) {
        FreshEdgeOk(st, child, path, e);
      } else {
        KeptEdgeOk(st, child, path, e);
      }
    }
  }

  /** After a merge the assigned groups still have backup lists leading to known packages. */
  lemma MergeBackupsOk(st: State, child: Group, path: seq<Group>)
    requires Inv(st) && MergeReady(st, child, path)
    ensures BackupsOk(Merge(st, child, path))
  {
    var r := Merge(st, child, path);
    var merged := Involved(child, path);
    MergeBackupsShape(st, child, path);
    MergeContainmentShape(st, child, path);
    assert Replaced(st.queue, merged) <= merged;
    BackupsKept(st.contained, st.backups, st.groupOf, r.contained, r.backups, r.groupOf,
                merged, Members(merged), Replaced(st.queue, merged));
  }

  /**
   * Replacing some groups by a new unassigned group with no backups, and dropping the backup
   * lists of some of the replaced groups only, keeps every assigned group's backup list.
   */
  lemma BackupsKept(c: ContainmentMap, b: map<Group, seq<Edge>>, gm: Registry,
                    c': ContainmentMap, b': map<Group, seq<Edge>>, gm': Registry,
                    merged: set<Group>, group: Group, dropped: set<Group>)
    requires forall g | g in c && c[g].Some? :: g in b
    requires forall g, e | g in b && e in b[g] :: e.parent in gm
    requires dropped <= merged
    requires c'.Keys == (c.Keys - merged) + {group} && c'[group] == None
    requires forall g | g in c' && g != group :: c'[g] == c[g]
    requires b'.Keys == (b.Keys - dropped) + {group} && b'[group] == []
    requires forall g | g in b' && g != group :: b'[g] == b[g]
    requires gm'.Keys == gm.Keys
    ensures forall g | g in c' && c'[g].Some? :: g in b'
    ensures forall g, e | g in b' && e in b'[g] :: e.parent in gm'
  {
    forall g | g in c' && c'[g].Some?
      ensures g in b'
    {
      assert g in c && g !in merged;
    }
  }

  /** A merge keeps the invariant. */
  lemma MergeInv(st: State, child: Group, path: seq<Group>)
    requires Inv(st) && MergeReady(st, child, path)
    ensures Inv(Merge(st, child, path))
  {
    var merged := Involved(child, path);
    var group := Members(merged);
    var c, gm := st.contained, st.groupOf;
    assert MergeOf(c, gm, merged, group);
    MergeKeepsPartition(c, gm, merged, group);
    MergeKeepsAcyclic(c, gm, merged, group);
    MergeQueueOk(st, child, path);
    MergeBackupsOk(st, child, path);
  }

  /** A merge joins at least two groups, so the number of groups goes down. */
  lemma MergeShrinks(st: State, child: Group, path: seq<Group>)
    requires MergeReady(st, child, path)
    ensures |Merge(st, child, path).contained.Keys| < |st.contained.Keys|
  {
    var merged := Involved(child, path);
    var group := Members(merged);
    assert MergeOf(st.contained, st.groupOf, merged, group);
    MergedGroupFresh(st.contained, st.groupOf, merged, group);
    assert path[0] in path;
    ReplaceCard(st.contained.Keys, merged, group, path[0], child);
  }

  // ---- One iteration of the main loop (packageorganizer.py:117-224) ----

  /**
   * Pops the best edge. Below the threshold it is dropped; if its child already has a parent
   * it becomes a backup; otherwise the child is assigned the parent and the probe walks up
   * from the parent's group, merging the loop it closes, if any.
   */
  function Step(st: State, threshold: real): State
    requires Inv(st) && st.queue != []
  {
    var e := st.queue[0];
    var rest := st.(queue := st.queue[1..]);
    if e.score < threshold then rest
    else if st.contained[e.child].Some? then
      rest.(backups := st.backups[e.child := st.backups[e.child] + [e]])
    else Place(st)
  }

  /** An edge scoring below the threshold is dropped and changes nothing else. */
  lemma StepDiscards(st: State, threshold: real)
    requires Inv(st) && st.queue != []
    requires st.queue[0].score < threshold
    ensures Step(st, threshold) == st.(queue := st.queue[1..])
  {
  }

  /** An edge whose child already has a parent is appended to that child's backup list. */
  lemma StepBackups(st: State, threshold: real)
    requires Inv(st) && st.queue != []
    requires st.queue[0].score >= threshold && st.contained[st.queue[0].child].Some?
    ensures var e := st.queue[0];
            && e.child in st.backups
            && Step(st, threshold) == st.(queue := st.queue[1..], backups := st.backups[e.child := st.backups[e.child] + [e]])
  {
  }

  lemma StepPlaces(st: State, threshold: real)
    requires Inv(st) && st.queue != []
    requires st.queue[0].score >= threshold && st.contained[st.queue[0].child] == None
    ensures Step(st, threshold) == Place(st)
  {
  }

  /**
   * The head's child is unassigned: it takes the head's parent, and the probe walks up from
   * the parent's group; a loop back into the child is merged.
   */
  function Place(st: State): State
    requires Inv(st) && st.queue != []
    requires st.contained[st.queue[0].child] == None
  {
    var e := st.queue[0];
    var rest := st.(queue := st.queue[1..]);
    var placed := rest.(contained := st.contained[e.child := Some(e.parent)]);
    match Probe(st.contained, st.groupOf, e.child, st.groupOf[e.parent])
    case NoLoop(_) => placed
    case Loop(path) =>
      DiscardInv(st);
      LoopReady(st, path);
      AssignedMerge(rest, e.child, Some(e.parent), path);
      Merge(placed, e.child, path)
  }

  /**
   * Every iteration keeps the invariant and the packages, and either merges groups or
   * shortens the queue, so the main loop terminates.
   */
  lemma StepInv(st: State, threshold: real)
    requires Inv(st) && st.queue != []
    ensures var r := Step(st, threshold);
            && Inv(r)
            && r.groupOf.Keys == st.groupOf.Keys
  {
    var e := st.queue[0];
    if e.score < threshold {
      DiscardInv(st);
    } else if st.contained[e.child].Some? {
      BackupInv(st);
    } else {
      StepPlaces(st, threshold);
      DiscardInv(st);
      var rest := st.(queue := st.queue[1..]);
      match Probe(st.contained, st.groupOf, e.child, st.groupOf[e.parent])
      case NoLoop(top) =>
        AssignInv(st, top);
      case Loop(path) =>
        LoopReady(st, path);
        MergeInv(rest, e.child, path);
        AssignedMerge(rest, e.child, Some(e.parent), path);
    }
  }

  /** The number of groups in the containment map: merging lowers it, nothing raises it. */
  ghost function GroupCount(st: State): nat
  {
    |st.contained.Keys|
  }

  /** Every iteration either merges groups, lowering their number, or keeps them and shortens the queue. */
  lemma StepMeasure(st: State, threshold: real)
    requires Inv(st) && st.queue != []
    ensures var r := Step(st, threshold);
            || GroupCount(r) < GroupCount(st)
            || (GroupCount(r) == GroupCount(st) && |r.queue| < |st.queue|)
  {
    var e := st.queue[0];
    if e.score >= threshold && st.contained[e.child] == None {
      StepPlaces(st, threshold);
      DiscardInv(st);
      var rest := st.(queue := st.queue[1..]);
      match Probe(st.contained, st.groupOf, e.child, st.groupOf[e.parent])
      case NoLoop(top) =>
        assert st.contained[e.child := Some(e.parent)].Keys == st.contained.Keys;
      case Loop(path) =>
        LoopReady(st, path);
        MergeShrinks(rest, e.child, path);
        AssignedMerge(rest, e.child, Some(e.parent), path);
    }
  }

  /**
   * When the head reaches an unassigned child and the parent chain from its parent's group
   * ends in another unassigned group, the child simply takes that parent.
   */
  lemma StepAssigns(st: State, threshold: real, t: Group, d: nat)
    requires Inv(st) && st.queue != []
    requires st.queue[0].score >= threshold && st.contained[st.queue[0].child] == None
    requires ChainTo(st.contained, st.groupOf, st.groupOf[st.queue[0].parent], t, d)
    requires t != st.queue[0].child
    ensures var e := st.queue[0];
            Step(st, threshold) == st.(queue := st.queue[1..], contained := st.contained[e.child := Some(e.parent)])
  {
    StepPlaces(st, threshold);
    var e := st.queue[0];
    var g := st.groupOf[e.parent];
    match Probe(st.contained, st.groupOf, e.child, g)
    case NoLoop(top) =>
    case Loop(path) =>
      LoopPathChain(st.contained, st.groupOf, e.child, g, path);
      ChainDeterministic(st.contained, st.groupOf, g, t, d, e.child, |path|);
      assert false;
  }

  /**
   * When the parent chain from the head's parent's group ends in the child itself, the step
   * merges the child with exactly the groups on that chain.
   */
  lemma StepMerges(st: State, threshold: real, d: nat) returns (path: seq<Group>)
    requires Inv(st) && st.queue != []
    requires st.queue[0].score >= threshold && st.contained[st.queue[0].child] == None
    requires ChainTo(st.contained, st.groupOf, st.groupOf[st.queue[0].parent], st.queue[0].child, d)
    ensures var e := st.queue[0];
            && LoopPath(st.contained, st.groupOf, e.child, st.groupOf[e.parent], path)
            && |path| == d
            && MergeReady(st.(queue := st.queue[1..]), e.child, path)
            && Step(st, threshold) == Merge(st.(queue := st.queue[1..]), e.child, path)
  {
    var e := st.queue[0];
    var g := st.groupOf[e.parent];
    match Probe(st.contained, st.groupOf, e.child, g)
    case NoLoop(top) =>
      var d' :| ChainTo(st.contained, st.groupOf, g, top, d');
      ChainDeterministic(st.contained, st.groupOf, g, top, d', e.child, d);
      assert false;
    case Loop(p) =>
      path := p;
      LoopPathChain(st.contained, st.groupOf, e.child, g, path);
      ChainDeterministic(st.contained, st.groupOf, g, e.child, |path|, e.child, d);
      LoopReady(st, path);
      var rest := st.(queue := st.queue[1..]);
      AssignedMerge(rest, e.child, Some(e.parent), path);
      var placed := rest.(contained := st.contained[e.child := Some(e.parent)]);
      StepPlaces(st, threshold);
      assert Place(st) == Merge(placed, e.child, path);
  }

  // ---- The root package stays the top of the hierarchy ----

  /** The root forms its own unassigned group and no queued edge leads out of it. */
  ghost predicate RootTop(st: State, root: Name)
  {
    && root in st.groupOf && st.groupOf[root] == {root}
    && {root} in st.contained && st.contained[{root}] == None
    && forall e | e in st.queue :: e.child != {root}
  }

  lemma InitRoot(pkgs: seq<Name>, root: Name, score: (Name, Name) -> real)
    requires Distinct(pkgs) && root !in pkgs
    ensures RootTop(Init(pkgs, Some(root), score), root)
  {
    var st := Init(pkgs, Some(root), score);
    InitGroups(pkgs, Some(root), score);
    InitQueue(pkgs, Some(root), score);
    forall e | e in st.queue
      ensures e.child != {root}
    {
      var i :| 0 <= i < |pkgs| && e.child == {pkgs[i]} && e.score == score(pkgs[i], e.parent)
               && ((e.parent in pkgs && e.parent != pkgs[i]) || Some(root) == Some(e.parent));
      assert pkgs[i] in e.child;
    }
  }

  /** A merge never involves the root's group, so the root keeps its group and stays unassigned. */
  lemma MergeKeepsRoot(st: State, child: Group, path: seq<Group>, root: Name)
    requires Inv(st) && MergeReady(st, child, path) && RootTop(st, root)
    requires child != {root}
    requires forall g | g in path :: st.contained[g].Some?
    ensures RootTop(Merge(st, child, path), root)
  {
    var merged := Involved(child, path);
    var group := Members(merged);
    assert {root} !in merged;
    MergedGroupFresh(st.contained, st.groupOf, merged, group);
    assert root !in group;
    MergeContainmentShape(st, child, path);
    MergeRegistryShape(st, child, path);
    MergeQueueKept(st, child, path);
  }

  lemma StepKeepsRoot(st: State, threshold: real, root: Name)
    requires Inv(st) && st.queue != [] && RootTop(st, root)
    ensures RootTop(Step(st, threshold), root)
  {
    var e := st.queue[0];
    if e.score >= threshold && st.contained[e.child] == None {
      StepPlaces(st, threshold);
      DiscardInv(st);
      var rest := st.(queue := st.queue[1..]);
      match Probe(st.contained, st.groupOf, e.child, st.groupOf[e.parent])
      case NoLoop(top) =>
      case Loop(path) =>
        LoopReady(st, path);
        AssignedMerge(rest, e.child, Some(e.parent), path);
        forall g | g in path
          ensures st.contained[g].Some?
        {
          var i :| 0 <= i < |path| && path[i] == g;
        }
        MergeKeepsRoot(rest, e.child, path, root);
    }
  }

  // ---- Nothing above the threshold ----

  ghost predicate AllBelow(q: seq<Edge>, threshold: real)
  {
    forall e | e in q :: e.score < threshold
  }

  /** Every group is a single unassigned package. */
  ghost predicate Flat(st: State)
  {
    forall g | g in st.contained :: st.contained[g] == None && |g| == 1
  }

  /** When every pairwise score is below the threshold, so is every initial edge. */
  lemma InitBelow(pkgs: seq<Name>, root: Option<Name>, score: (Name, Name) -> real, threshold: real)
    requires Distinct(pkgs)
    requires root.Some? ==> root.value !in pkgs
    requires forall i, q | 0 <= i < |pkgs| && q in Names(pkgs, root) && q != pkgs[i] :: score(pkgs[i], q) < threshold
    ensures AllBelow(Init(pkgs, root, score).queue, threshold)
    ensures Flat(Init(pkgs, root, score))
  {
    var st := Init(pkgs, root, score);
    InitGroups(pkgs, root, score);
    InitQueue(pkgs, root, score);
    forall e | e in st.queue
      ensures e.score < threshold
    {
      var i :| 0 <= i < |pkgs| && e.child == {pkgs[i]} && e.score == score(pkgs[i], e.parent)
               && ((e.parent in pkgs && e.parent != pkgs[i]) || root == Some(e.parent));
      assert e.parent in Names(pkgs, root);
    }
  }

  /** An iteration over a queue of edges all below the threshold only shortens the queue. */
  lemma StepBelow(st: State, threshold: real)
    requires Inv(st) && st.queue != [] && AllBelow(st.queue, threshold)
    ensures Step(st, threshold) == st.(queue := st.queue[1..])
    ensures AllBelow(Step(st, threshold).queue, threshold)
    ensures Flat(st) ==> Flat(Step(st, threshold))
  {
    assert st.queue[0] in st.queue;
    StepDiscards(st, threshold);
  }

  // ---- The main loop (packageorganizer.py:113-224) ----

  /** What the main loop keeps, relative to the state it started from. */
  ghost predicate Progress(st: State, start: State, threshold: real, root: Option<Name>)
  {
    && Inv(st)
    && st.groupOf.Keys == start.groupOf.Keys
    && (root.Some? ==> RootTop(st, root.value))
    && (Flat(start) && AllBelow(start.queue, threshold) ==> Flat(st) && AllBelow(st.queue, threshold))
  }

  /** The states that keep what the main loop keeps, relative to the state it started from. */
  ghost function Kept(start: State, threshold: real, root: Option<Name>): iset<State>
  {
    iset st | Progress(st, start, threshold, root)
  }

  /** One iteration keeps what the loop keeps, and lowers the group count or shortens the queue. */
  lemma StepProgress(st: State, start: State, threshold: real, root: Option<Name>)
    requires st in Kept(start, threshold, root) && st.queue != []
    ensures var r := Step(st, threshold);
            && r in Kept(start, threshold, root)
            && (GroupCount(r) < GroupCount(st) ||
                (GroupCount(r) == GroupCount(st) && |r.queue| < |st.queue|))
  {
    assert Progress(st, start, threshold, root);
    StepInv(st, threshold);
    StepMeasure(st, threshold);
    var r := Step(st, threshold);
    if root.Some? {
      StepKeepsRoot(st, threshold, root.value);
    }
    if Flat(start) && AllBelow(start.queue, threshold) {
      StepBelow(st, threshold);
    }
    KeepsProgress(st, r, start, threshold, root);
  }

  lemma KeepsProgress(st: State, r: State, start: State, threshold: real, root: Option<Name>)
    requires Progress(st, start, threshold, root)
    requires Inv(r) && r.groupOf.Keys == st.groupOf.Keys
    requires root.Some? ==> RootTop(r, root.value)
    requires Flat(start) && AllBelow(start.queue, threshold) ==> Flat(r) && AllBelow(r.queue, threshold)
    ensures r in Kept(start, threshold, root)
  {
    assert Progress(r, start, threshold, root);
  }

  /** The state the main loop reaches from `st`: iterations of `Step` until the queue is empty. */
  ghost function Run(st: State, threshold: real): State
    requires Inv(st)
    decreases GroupCount(st), |st.queue|
  {
    if st.queue == [] then st
    else
      StepInv(st, threshold);
      StepMeasure(st, threshold);
      Run(Step(st, threshold), threshold)
  }

  /** A run from a state with edges left is the run from the state one iteration later. */
  lemma RunStep(st: State, threshold: real)
    requires Inv(st) && st.queue != []
    ensures Inv(Step(st, threshold)) && Run(st, threshold) == Run(Step(st, threshold), threshold)
  {
    StepInv(st, threshold);
  }

  /** Runs iterations until the queue is empty (the `while (len(queue) > 0)` loop, :116-222). */
  method Drain(st: State, ghost start: State, threshold: real, ghost root: Option<Name>) returns (r: State)
    requires st in Kept(start, threshold, root)
    ensures r in Kept(start, threshold, root) && r.queue == []
    ensures Inv(st) && r == Run(st, threshold)
    decreases GroupCount(st), |st.queue|
  {
    if st.queue == [] {
      assert Progress(st, start, threshold, root);
      return st;
    }
    var next := Advance(st, start, threshold, root);
    RunStep(st, threshold);
    r := Drain(next, start, threshold, root);
  }

  /** One iteration of the main loop, as a call whose contract is all the loop needs. */
  method Advance(st: State, ghost start: State, threshold: real, ghost root: Option<Name>) returns (r: State)
    requires st in Kept(start, threshold, root) && st.queue != []
    ensures Inv(st) && r == Step(st, threshold)
    ensures r in Kept(start, threshold, root)
    ensures GroupCount(r) < GroupCount(st) ||
            (GroupCount(r) == GroupCount(st) && |r.queue| < |st.queue|)
  {
    assert Progress(st, start, threshold, root);
    StepProgress(st, start, threshold, root);
    r := Step(st, threshold);
  }

  /**
   * Runs the hierarchy reconstruction for the packages `pkgs` (the keys of the embedding
   * dictionary) under `root`, with `score(child, parent)` standing for the projection length
   * of the child's embedding onto the parent's.
   */
  method Organize(pkgs: seq<Name>, root: Option<Name>, score: (Name, Name) -> real, threshold: real)
    returns (st: State)
    requires Distinct(pkgs)
    requires root.Some? ==> root.value !in pkgs
    ensures Inv(st) && st.queue == []
    ensures Inv(Init(pkgs, root, score)) && st == Run(Init(pkgs, root, score), threshold)
    ensures st.groupOf.Keys == Names(pkgs, root)
    ensures root.Some? ==> RootTop(st, root.value)
    ensures (forall i, q | 0 <= i < |pkgs| && q in Names(pkgs, root) && q != pkgs[i] :: score(pkgs[i], q) < threshold) ==>
              Flat(st)
  {
    var start := Init(pkgs, root, score);
    InitGroups(pkgs, root, score);
    InitInv(pkgs, root, score);
    if root.Some? {
      InitRoot(pkgs, root.value, score);
    }
    if forall i, q | 0 <= i < |pkgs| && q in Names(pkgs, root) && q != pkgs[i] :: score(pkgs[i], q) < threshold {
      InitBelow(pkgs, root, score, threshold);
    }
    assert Progress(start, start, threshold, root);
    st := Drain(start, start, threshold, root);
    assert Progress(st, start, threshold, root);
  }
}
