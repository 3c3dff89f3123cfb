/**
 * The organizer's containment map `is_contained_in` (group -> parent package or None) and its
 * registry `group_map` (package -> current group), with the acyclicity of the parent chain
 * and the loop probe of proposedmethod/packageorganizer.py.
 */
module Containment {
  import opened Wrappers
  import opened Seqs
  import opened Candidates

  /** `is_contained_in`: the parent package of a group, or None while it is unassigned. */
  type ContainmentMap = map<Group, Option<Name>>

  /** `group_map`: the group a package currently belongs to. */
  type Registry = map<Name, Group>

  /** Every package belongs to exactly one current group, the one the registry names. */
  ghost predicate Partitioned(c: ContainmentMap, gm: Registry)
  {
    && (forall x | x in gm :: x in gm[x] && gm[x] in c)
    && (forall g | g in c :: g != {} && forall x | x in g :: x in gm && gm[x] == g)
  }

  /** Every parent is a registered package, and no group is contained in one of its members. */
  ghost predicate ParentsKnown(c: ContainmentMap, gm: Registry)
  {
    forall g | g in c && c[g].Some? :: c[g].value in gm && c[g].value !in g
  }

  ghost predicate WellFormed(c: ContainmentMap, gm: Registry)
  {
    Partitioned(c, gm) && ParentsKnown(c, gm)
  }

  /**
   * Following parents from `g`, resolving each parent package to its group, reaches the
   * unassigned group `t` after exactly `d` steps.
   */
  ghost predicate ChainTo(c: ContainmentMap, gm: Registry, g: Group, t: Group, d: nat)
    decreases d
  {
    && g in c
    && match c[g]
       case None => t == g && d == 0
       case Some(p) => d > 0 && p in gm && ChainTo(c, gm, gm[p], t, d - 1)
  }

  /** The resolved parent chain of every group ends in an unassigned group. */
  ghost predicate Acyclic(c: ContainmentMap, gm: Registry)
  {
    forall g | g in c :: exists t, d :: ChainTo(c, gm, g, t, d)
  }

  lemma {:induction false} ChainDeterministic(c: ContainmentMap, gm: Registry, g: Group,
                                              t: Group, d: nat, t': Group, d': nat)
    requires ChainTo(c, gm, g, t, d) && ChainTo(c, gm, g, t', d')
    ensures t == t' && d == d'
    decreases d
  {
    match c[g]
    case None =>
    case Some(p) => ChainDeterministic(c, gm, gm[p], t, d - 1, t', d' - 1);
  }

  /** The number of steps from `g` to the top of its chain. */
  ghost function Depth(c: ContainmentMap, gm: Registry, g: Group): (d: nat)
    requires g in c && Acyclic(c, gm)
    ensures exists t :: ChainTo(c, gm, g, t, d)
  {
    var t, d :| ChainTo(c, gm, g, t, d); d
  }

  lemma DepthStep(c: ContainmentMap, gm: Registry, g: Group)
    requires Acyclic(c, gm) && g in c && c[g].Some?
    requires c[g].value in gm && gm[c[g].value] in c
    ensures Depth(c, gm, gm[c[g].value]) < Depth(c, gm, g)
  {
    var d := Depth(c, gm, g);
    var t :| ChainTo(c, gm, g, t, d);
    var h := gm[c[g].value];
    var d' := Depth(c, gm, h);
    var t' :| ChainTo(c, gm, h, t', d');
    ChainDeterministic(c, gm, h, t, d - 1, t', d');
  }

  /** What the loop probe (the inner `while` of the organizer) finds. */
  datatype ProbeResult =
    | NoLoop(top: Group)        // the chain ends in the unassigned group `top`
    | Loop(path: seq<Group>)    // the groups of the probe's `seen` list, in order

  /** `path` is a walk up the parent chain from `g` whose last parent is a member of `child`. */
  ghost predicate LoopPath(c: ContainmentMap, gm: Registry, child: Group, g: Group, path: seq<Group>)
  {
    && |path| > 0
    && path[0] == g
    && (forall i | 0 <= i < |path| ::
          path[i] in c && path[i] != child && c[path[i]].Some? && c[path[i]].value in gm)
    && (forall i | 0 <= i < |path| - 1 :: gm[c[path[i]].value] == path[i + 1])
    && c[path[|path| - 1]].value in child
  }

  /**
   * The loop probe: starting from the group `g` of the new parent, follow parents until a
   * group is unassigned (no loop) or a parent is a member of `child` (a loop through the
   * groups visited). The probe reads the map before `child` received its parent; since it
   * stops as soon as it reaches a member of `child`, it never reads that entry.
   */
  function Probe(c: ContainmentMap, gm: Registry, child: Group, g: Group): (r: ProbeResult)
    requires WellFormed(c, gm) && Acyclic(c, gm)
    requires g in c && g != child
    ensures r.NoLoop? ==>
      r.top in c && c[r.top] == None && r.top != child && exists d :: ChainTo(c, gm, g, r.top, d)
    ensures r.Loop? ==> LoopPath(c, gm, child, g, r.path) && Distinct(r.path)
    ensures r.Loop? ==> forall i | 0 <= i < |r.path| :: Depth(c, gm, r.path[i]) <= Depth(c, gm, g) - i
    decreases Depth(c, gm, g)
  {
    match c[g]
    case None =>
      assert ChainTo(c, gm, g, g, 0);
      NoLoop(g)
    case Some(q) =>
      if q in child then Loop([g])
      else
        var h := gm[q];
        DepthStep(c, gm, g);
        var r := Probe(c, gm, child, h);
        match r
        case NoLoop(top) =>
          ChainStep(c, gm, g, top);
          r
        case Loop(path) =>
          LoopStep(c, gm, child, g, path);
          Loop([g] + path)
  }

  /** A chain from the group of `g`'s parent extends to a chain from `g`. */
  lemma ChainStep(c: ContainmentMap, gm: Registry, g: Group, top: Group)
    requires g in c && c[g].Some? && c[g].value in gm
    requires exists d :: ChainTo(c, gm, gm[c[g].value], top, d)
    ensures exists d :: ChainTo(c, gm, g, top, d)
  {
    var d: nat :| ChainTo(c, gm, gm[c[g].value], top, d);
    assert ChainTo(c, gm, g, top, d + 1);
  }

  /** A loop path from the group of `g`'s parent extends to one from `g`. */
  lemma LoopStep(c: ContainmentMap, gm: Registry, child: Group, g: Group, path: seq<Group>)
    requires Acyclic(c, gm)
    requires g in c && g != child && c[g].Some? && c[g].value !in child
    requires c[g].value in gm && gm[c[g].value] in c
    requires LoopPath(c, gm, child, gm[c[g].value], path) && Distinct(path)
    requires forall i | 0 <= i < |path| :: Depth(c, gm, path[i]) <= Depth(c, gm, gm[c[g].value]) - i
    ensures LoopPath(c, gm, child, g, [g] + path) && Distinct([g] + path)
    ensures forall i | 0 <= i < |path| + 1 :: Depth(c, gm, ([g] + path)[i]) <= Depth(c, gm, g) - i
  {
    var p := [g] + path;
    DepthStep(c, gm, g);
    assert forall i | 1 <= i < |p| :: p[i] == path[i - 1];
    assert forall i | 1 <= i < |p| :: Depth(c, gm, p[i]) < Depth(c, gm, g);
    assert Distinct(p) by {
      forall i, j | 0 <= i < j < |p|
        ensures p[i] != p[j]
      {
        if i > 0 {
          assert p[i] == path[i - 1] && p[j] == path[j - 1];
        }
      }
    }
  }

  // ---- Acyclicity is preserved by an assignment that closes no loop ----

  lemma {:induction false} ChainFrame(c: ContainmentMap, gm: Registry, g: Group, t: Group, d: nat,
                                      child: Group, v: Option<Name>)
    requires ChainTo(c, gm, g, t, d) && t != child
    requires child in c && c[child] == None
    ensures ChainTo(c[child := v], gm, g, t, d)
    decreases d
  {
    match c[g]
    case None =>
    case Some(p) => ChainFrame(c, gm, gm[p], t, d - 1, child, v);
  }

  lemma {:induction false} ChainThrough(c: ContainmentMap, gm: Registry, g: Group, d: nat,
                                        child: Group, parent: Name, t: Group, m: nat)
    requires ChainTo(c, gm, g, child, d)
    requires child in c && c[child] == None && parent in gm
    requires ChainTo(c, gm, gm[parent], t, m) && t != child
    ensures ChainTo(c[child := Some(parent)], gm, g, t, d + 1 + m)
    decreases d
  {
    match c[g]
    case None =>
      ChainFrame(c, gm, gm[parent], t, m, child, Some(parent));
    case Some(p) =>
      ChainThrough(c, gm, gm[p], d - 1, child, parent, t, m);
  }

  /** Giving a known group a registered parent outside it keeps the map well formed. */
  lemma AssignKeepsWellFormed(c: ContainmentMap, gm: Registry, child: Group, parent: Name)
    requires WellFormed(c, gm) && child in c && parent in gm && parent !in child
    ensures WellFormed(c[child := Some(parent)], gm)
  {
    assert c[child := Some(parent)].Keys == c.Keys;
  }

  /** Giving the unassigned `child` a parent whose chain does not end at `child` keeps the map acyclic. */
  lemma AssignKeepsAcyclic(c: ContainmentMap, gm: Registry, child: Group, parent: Name, t: Group, m: nat)
    requires Acyclic(c, gm)
    requires child in c && c[child] == None && parent in gm
    requires ChainTo(c, gm, gm[parent], t, m) && t != child
    ensures Acyclic(c[child := Some(parent)], gm)
  {
    var c' := c[child := Some(parent)];
    forall g | g in c'
      ensures exists t', d' :: ChainTo(c', gm, g, t', d')
    {
      var tg, dg :| ChainTo(c, gm, g, tg, dg);
      if tg == child {
        ChainThrough(c, gm, g, dg, child, parent, t, m);
      } else {
        ChainFrame(c, gm, g, tg, dg, child, Some(parent));
      }
    }
  }

  // ---- Merging groups into one new unassigned group ----

  /** The union of the packages of the given groups. */
  function Members(groups: set<Group>): (u: Group)
    ensures forall g | g in groups :: g <= u
    ensures forall x | x in u :: exists g | g in groups :: x in g
  {
    set g, x | g in groups && x in g :: x
  }

  /** The merged groups lose their entries; the new group starts unassigned. */
  function MergeContainment(c: ContainmentMap, merged: set<Group>, group: Group): (r: ContainmentMap)
    ensures r.Keys == (c.Keys - merged) + {group}
    ensures r[group] == None
    ensures forall g | g in r && g != group :: r[g] == c[g]
  {
    (c - merged)[group := None]
  }

  /** Every member of the new group now resolves to it; other packages keep their group. */
  function Regroup(gm: Registry, group: Group): (r: Registry)
    ensures r.Keys == gm.Keys
    ensures forall x | x in r && x in group :: r[x] == group
    ensures forall x | x in r && x !in group :: r[x] == gm[x]
  {
    map x | x in gm :: if x in group then group else gm[x]
  }

  /** The facts about a merge that the preservation lemmas need. */
  ghost predicate MergeOf(c: ContainmentMap, gm: Registry, merged: set<Group>, group: Group)
  {
    && merged <= c.Keys
    && merged != {}
    && group == Members(merged)
  }

  /** A package is in the new group exactly when its old group was merged. */
  lemma MergedPackages(c: ContainmentMap, gm: Registry, merged: set<Group>, group: Group)
    requires Partitioned(c, gm) && MergeOf(c, gm, merged, group)
    ensures forall x | x in gm :: x in group <==> gm[x] in merged
  {
    forall x | x in gm
      ensures x in group <==> gm[x] in merged
    {
      if x in group {
        var h :| h in merged && x in h;
        assert h in c;
        assert gm[x] == h;
      }
      if gm[x] in merged {
        assert x in gm[x];
      }
    }
  }

  /** The new group is non-empty and shares no package with a group that stays. */
  lemma MergedGroupFresh(c: ContainmentMap, gm: Registry, merged: set<Group>, group: Group)
    requires Partitioned(c, gm) && MergeOf(c, gm, merged, group)
    ensures group != {}
    ensures forall g | g in c && g !in merged :: g !! group
    ensures group !in c.Keys - merged
  {
    var h :| h in merged;
    assert h in c;
    var x :| x in h;
    assert x in group;
    forall g | g in c && g !in merged
      ensures g !! group
    {
      forall y | y in g
        ensures y !in group
      {
        assert gm[y] == g;
      }
    }
  }

  lemma MergeKeepsRegistry(c: ContainmentMap, gm: Registry, merged: set<Group>, group: Group)
    requires Partitioned(c, gm) && MergeOf(c, gm, merged, group)
    ensures forall x | x in Regroup(gm, group) ::
      x in Regroup(gm, group)[x] && Regroup(gm, group)[x] in MergeContainment(c, merged, group)
  {
    var c' := MergeContainment(c, merged, group);
    var gm' := Regroup(gm, group);
    MergedPackages(c, gm, merged, group);
    forall x | x in gm'
      ensures x in gm'[x] && gm'[x] in c'
    {
      if x !in group {
        assert gm'[x] == gm[x];
        assert gm[x] !in merged;
      }
    }
  }

  lemma MergeKeepsGroups(c: ContainmentMap, gm: Registry, merged: set<Group>, group: Group)
    requires Partitioned(c, gm) && MergeOf(c, gm, merged, group)
    ensures forall g | g in MergeContainment(c, merged, group) ::
      g != {} && forall x | x in g :: x in Regroup(gm, group) && Regroup(gm, group)[x] == g
  {
    var c' := MergeContainment(c, merged, group);
    var gm' := Regroup(gm, group);
    MergedGroupFresh(c, gm, merged, group);
    forall g | g in c'
      ensures g != {} && forall x | x in g :: x in gm' && gm'[x] == g
    {
      if g != group {
        assert g in c && g !in merged;
        assert g !! group;
        forall x | x in g
          ensures x in gm' && gm'[x] == g
        {
          assert x in gm && gm[x] == g;
        }
      } else {
        forall x | x in g
          ensures x in gm' && gm'[x] == g
        {
          var k :| k in merged && x in k;
          assert k in c;
        }
      }
    }
  }

  lemma MergeKeepsPartition(c: ContainmentMap, gm: Registry, merged: set<Group>, group: Group)
    requires WellFormed(c, gm) && MergeOf(c, gm, merged, group)
    ensures WellFormed(MergeContainment(c, merged, group), Regroup(gm, group))
    ensures group !in c.Keys - merged
    ensures forall x | x in gm :: x in group <==> gm[x] in merged
  {
    var c' := MergeContainment(c, merged, group);
    var gm' := Regroup(gm, group);
    MergedPackages(c, gm, merged, group);
    MergedGroupFresh(c, gm, merged, group);
    MergeKeepsRegistry(c, gm, merged, group);
    MergeKeepsGroups(c, gm, merged, group);
    forall g | g in c' && c'[g].Some?
      ensures c'[g].value in gm' && c'[g].value !in g
    {
      assert g != group;
    }
  }

  /** A chain from a group that stays still ends after a merge: at its old end, or at the new group. */
  lemma {:induction false} ChainMerge(c: ContainmentMap, gm: Registry, merged: set<Group>, group: Group,
                                      g: Group, t: Group, d: nat) returns (t': Group, d': nat)
    requires forall x | x in gm :: x in group <==> gm[x] in merged
    requires group !in c.Keys - merged
    requires ChainTo(c, gm, g, t, d) && g !in merged
    ensures ChainTo(MergeContainment(c, merged, group), Regroup(gm, group), g, t', d')
    ensures t' == t || t' == group
    decreases d
  {
    var c' := MergeContainment(c, merged, group);
    var gm' := Regroup(gm, group);
    assert g in c' && g != group && c'[g] == c[g];
    if c[g].None? {
      t', d' := g, 0;
    } else {
      var p := c[g].value;
      assert p in gm;
      if p in group {
        assert gm'[p] == group;
        assert ChainTo(c', gm', group, group, 0);
        t', d' := group, 1;
      } else {
        var h := gm[p];
        assert gm'[p] == h;
        assert h !in merged && h in c;
        var th, dh := ChainMerge(c, gm, merged, group, h, t, d - 1);
        t', d' := th, dh + 1;
      }
    }
  }

  /**
   * Replacing the merged groups by a group that holds exactly their packages, starts
   * unassigned and is none of the groups that stay, keeps the map acyclic.
   */
  lemma MergeKeepsAcyclic(c: ContainmentMap, gm: Registry, merged: set<Group>, group: Group)
    requires Acyclic(c, gm)
    requires forall x | x in gm :: x in group <==> gm[x] in merged
    requires group !in c.Keys - merged
    ensures Acyclic(MergeContainment(c, merged, group), Regroup(gm, group))
  {
    var c' := MergeContainment(c, merged, group);
    var gm' := Regroup(gm, group);
    forall g | g in c'
      ensures exists t, d :: ChainTo(c', gm', g, t, d)
    {
      if g == group {
        assert ChainTo(c', gm', g, g, 0);
      } else {
        var t, d :| ChainTo(c, gm, g, t, d);
        var t', d' := ChainMerge(c, gm, merged, group, g, t, d);
      }
    }
  }

  /** When at least two groups merge, the new group is none of the current groups. */
  lemma MergedGroupNew(c: ContainmentMap, gm: Registry, merged: set<Group>, group: Group, a: Group, b: Group)
    requires Partitioned(c, gm) && MergeOf(c, gm, merged, group)
    requires a in merged && b in merged && a != b
    ensures group !in c
  {
    MergedGroupFresh(c, gm, merged, group);
  }

  /** A loop path from `g` means the chain from `g` ends at the (unassigned) child. */
  lemma {:induction false} LoopPathChain(c: ContainmentMap, gm: Registry, child: Group, g: Group,
                                         path: seq<Group>)
    requires Partitioned(c, gm)
    requires LoopPath(c, gm, child, g, path)
    requires child in c && c[child] == None
    ensures ChainTo(c, gm, g, child, |path|)
    decreases |path|
  {
    var q := c[g].value;
    if |path| == 1 {
      assert gm[q] == child;
      assert ChainTo(c, gm, child, child, 0);
    } else {
      assert LoopPath(c, gm, child, path[1], path[1..]);
      LoopPathChain(c, gm, child, path[1], path[1..]);
    }
  }
}
