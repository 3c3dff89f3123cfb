/**
 * The bookkeeping of a merge in proposedmethod/packageorganizer.py (lines 162-199): the
 * queued edges of the merged groups are taken out of the queue, joined by their backup
 * edges, and replaced by one averaged edge per parent outside the new group.
 */
module Folding {
  import opened Seqs
  import opened Candidates

  /** Queued edges whose child is one of `groups`, in queue order (the edges popped at :172). */
  function ChildIn(q: seq<Edge>, groups: set<Group>): (r: seq<Edge>)
    ensures forall e :: e in r <==> e in q && e.child in groups
  {
    if q == [] then []
    else (if q[0].child in groups then [q[0]] else []) + ChildIn(q[1..], groups)
  }

  /** Queued edges whose child is not one of `groups`: what stays queued. */
  function ChildNotIn(q: seq<Edge>, groups: set<Group>): (r: seq<Edge>)
    ensures forall e :: e in r <==> e in q && e.child !in groups
  {
    if q == [] then []
    else (if q[0].child !in groups then [q[0]] else []) + ChildNotIn(q[1..], groups)
  }

  /** Dropping the edges of merged children distributes over concatenation. */
  lemma {:induction false} ChildNotInAppend(a: seq<Edge>, b: seq<Edge>, groups: set<Group>)
    ensures ChildNotIn(a + b, groups) == ChildNotIn(a, groups) + ChildNotIn(b, groups)
  {
    if a == [] {
      assert a + b == b;
    } else {
      var head := if a[0].child !in groups then [a[0]] else [];
      var tail, rest := ChildNotIn(a[1..], groups), ChildNotIn(b, groups);
      AppendCons(a, b);
      ChildNotInCons(a[0], a[1..] + b, groups);
      ChildNotInAppend(a[1..], b, groups);
      assert ChildNotIn(a + b, groups) == head + (tail + rest);
      AppendAssoc(head, tail, rest);
    }
  }

  lemma ChildNotInCons(x: Edge, q: seq<Edge>, groups: set<Group>)
    ensures ChildNotIn([x] + q, groups) == (if x.child !in groups then [x] else []) + ChildNotIn(q, groups)
  {
    assert ([x] + q)[1..] == q;
  }

  /** Dropping the edges of merged children and picking the edges of one score commute. */
  lemma {:induction false} ChildNotInWithScore(q: seq<Edge>, groups: set<Group>, v: real)
    ensures WithScore(ChildNotIn(q, groups), v) == ChildNotIn(WithScore(q, v), groups)
  {
    if q != [] {
      var x := q[0];
      var head := if x.child !in groups then [x] else [];
      var picked := if x.score == v then [x] else [];
      ChildNotInWithScore(q[1..], groups, v);
      WithScoreAppend(head, ChildNotIn(q[1..], groups), v);
      ChildNotInAppend(picked, WithScore(q[1..], v), groups);
      assert WithScore(head, v) == ChildNotIn(picked, groups) by {
        if x.child !in groups {
          assert WithScore(head, v) == (if x.score == v then [x] else []) + WithScore([], v) by {
            WithScoreCons(x, [], v);
            assert [x] + [] == [x];
          }
        }
        if x.score == v {
          assert picked == [x] + [];
        }
      }
    }
  }

  lemma {:induction false} ChildNotInUnique(q: seq<Edge>, groups: set<Group>)
    requires UniqueKeys(q)
    ensures UniqueKeys(ChildNotIn(q, groups))
  {
    if q != [] {
      assert q == [q[0]] + q[1..];
      UniqueCons(q[0], q[1..]);
      ChildNotInUnique(q[1..], groups);
      if q[0].child !in groups {
        UniqueCons(q[0], ChildNotIn(q[1..], groups));
      }
    }
  }

  /** Edges whose parent is not a member of `group`: a group is never contained in a member. */
  function ParentNotIn(es: seq<Edge>, group: Group): (r: seq<Edge>)
    ensures forall e :: e in r <==> e in es && e.parent !in group
  {
    if es == [] then []
    else (if es[0].parent !in group then [es[0]] else []) + ParentNotIn(es[1..], group)
  }

  /** The backup edges of the groups in `order`, one group after the other, parents outside `group`. */
  function BackupsOf(order: seq<Group>, backups: map<Group, seq<Edge>>, group: Group): (r: seq<Edge>)
    requires forall g | g in order :: g in backups
    ensures forall e :: e in r <==> e.parent !in group && exists g | g in order :: e in backups[g]
  {
    if order == [] then []
    else
      var rest := BackupsOf(order[1..], backups, group);
      assert forall g :: g in order <==> g == order[0] || g in order[1..];
      ParentNotIn(backups[order[0]], group) + rest
  }

  /** The scores of the edges toward `p`, in order. */
  function ScoresToward(es: seq<Edge>, p: Name): seq<real>
  {
    if es == [] then []
    else (if es[0].parent == p then [es[0].score] else []) + ScoresToward(es[1..], p)
  }

  /** There is a score toward `p` exactly when some edge leads to `p`. */
  lemma {:induction false} ScoresTowardNonEmpty(es: seq<Edge>, p: Name)
    ensures ScoresToward(es, p) != [] <==> exists e | e in es :: e.parent == p
  {
    if es != [] {
      ScoresTowardNonEmpty(es[1..], p);
      assert forall e :: e in es <==> e == es[0] || e in es[1..];
    }
  }

  lemma {:induction false} ScoresTowardAppend(a: seq<Edge>, b: seq<Edge>, p: Name)
    ensures ScoresToward(a + b, p) == ScoresToward(a, p) + ScoresToward(b, p)
  {
    if a == [] {
      assert a + b == b;
    } else {
      assert a + b == [a[0]] + (a[1..] + b);
      assert a == [a[0]] + a[1..];
      ScoresTowardCons(a[0], a[1..] + b, p);
      ScoresTowardCons(a[0], a[1..], p);
      ScoresTowardAppend(a[1..], b, p);
    }
  }

  lemma ScoresTowardCons(x: Edge, q: seq<Edge>, p: Name)
    ensures ScoresToward([x] + q, p) == (if x.parent == p then [x.score] else []) + ScoresToward(q, p)
  {
    assert ([x] + q)[1..] == q;
  }

  /** Dropping edges toward members of `group` does not change the scores toward an outside parent. */
  lemma {:induction false} ScoresTowardOutside(es: seq<Edge>, group: Group, p: Name)
    requires p !in group
    ensures ScoresToward(ParentNotIn(es, group), p) == ScoresToward(es, p)
  {
    if es != [] {
      var head := if es[0].parent !in group then [es[0]] else [];
      ScoresTowardAppend(head, ParentNotIn(es[1..], group), p);
      ScoresTowardOutside(es[1..], group, p);
    }
  }

  /** The backup scores toward `p` of the groups in `order`, one group after the other. */
  function BackupScores(order: seq<Group>, backups: map<Group, seq<Edge>>, p: Name): seq<real>
    requires forall g | g in order :: g in backups
  {
    if order == [] then [] else ScoresToward(backups[order[0]], p) + BackupScores(order[1..], backups, p)
  }

  lemma {:induction false} BackupScoresOutside(order: seq<Group>, backups: map<Group, seq<Edge>>,
                                               group: Group, p: Name)
    requires forall g | g in order :: g in backups
    requires p !in group
    ensures ScoresToward(BackupsOf(order, backups, group), p) == BackupScores(order, backups, p)
  {
    if order != [] {
      ScoresTowardAppend(ParentNotIn(backups[order[0]], group), BackupsOf(order[1..], backups, group), p);
      ScoresTowardOutside(backups[order[0]], group, p);
      BackupScoresOutside(order[1..], backups, group, p);
    }
  }

  /** The parents of the edges, in order. */
  function Parents(es: seq<Edge>): (r: seq<Name>)
    ensures forall p :: p in r <==> exists e | e in es :: e.parent == p
  {
    if es == [] then [] else [es[0].parent] + Parents(es[1..])
  }

  /** One edge from `group` per parent, scored as the mean of the folded scores toward it. */
  function Averaged(group: Group, parents: seq<Name>, folded: seq<Edge>): (r: seq<Edge>)
    requires forall p | p in parents :: ScoresToward(folded, p) != []
    ensures forall e :: e in r <==>
      e.child == group && e.parent in parents && e.score == Mean(ScoresToward(folded, e.parent))
    ensures Distinct(parents) ==> UniqueKeys(r)
  {
    if parents == [] then []
    else
      var e := Edge(group, parents[0], Mean(ScoresToward(folded, parents[0])));
      var rest := Averaged(group, parents[1..], folded);
      assert Distinct(parents) ==> Distinct(parents[1..]) && parents[0] !in parents[1..];
      UniqueCons(e, rest);
      [e] + rest
  }
}
