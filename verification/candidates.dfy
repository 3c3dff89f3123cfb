/**
 * Candidate edges and the candidate queue of the package organizer
 * (proposedmethod/packageorganizer.py). A candidate `(child, parent): score` records the
 * projection length of a package group onto a package; the queue is a dictionary kept in
 * descending score order, re-sorted by a stable sort whenever edges are added.
 */
module Candidates {
  import opened Wrappers
  import opened Seqs

  /** A package, identified by its path. */
  type Name = string

  /** A group of packages, used as a dictionary key by the organizer. */
  type Group = set<Name>

  /** `child` projected onto `parent` scores `score`. */
  datatype Edge = Edge(child: Group, parent: Name, score: real)

  /** The queue is a dictionary keyed by (child, parent). */
  function Key(e: Edge): (Group, Name)
  {
    (e.child, e.parent)
  }

  ghost predicate UniqueKeys(q: seq<Edge>)
  {
    forall i, j | 0 <= i < j < |q| :: Key(q[i]) != Key(q[j])
  }

  /** Descending by score: the head of the queue is an edge of maximal score. */
  ghost predicate Sorted(q: seq<Edge>)
  {
    forall i, j | 0 <= i < j < |q| :: q[i].score >= q[j].score
  }

  /** The edges of score exactly `v`, in queue order. */
  function WithScore(q: seq<Edge>, v: real): seq<Edge>
  {
    if q == [] then []
    else (if q[0].score == v then [q[0]] else []) + WithScore(q[1..], v)
  }

  /** Inserts `e` in front of the first edge of a descending queue that does not beat it. */
  function Insert(e: Edge, t: seq<Edge>): (r: seq<Edge>)
    ensures |r| == |t| + 1
    ensures forall x :: x in r <==> x == e || x in t
  {
    if t == [] || e.score >= t[0].score then [e] + t
    else [t[0]] + Insert(e, t[1..])
  }

  lemma {:induction false} InsertSorted(e: Edge, t: seq<Edge>)
    requires Sorted(t)
    ensures Sorted(Insert(e, t))
  {
    if t == [] || e.score >= t[0].score {
    } else {
      InsertSorted(e, t[1..]);
      var r := Insert(e, t[1..]);
      assert forall x | x in r :: t[0].score >= x.score;
    }
  }

  /** Inserting `e` adds it in front of the equal-score edges already queued. */
  lemma {:induction false} InsertWithScore(e: Edge, t: seq<Edge>, v: real)
    ensures WithScore(Insert(e, t), v) == (if e.score == v then [e] else []) + WithScore(t, v)
  {
    if t == [] || e.score >= t[0].score {
      WithScoreCons(e, t, v);
    } else {
      var r := Insert(e, t[1..]);
      InsertWithScore(e, t[1..], v);
      WithScoreCons(t[0], r, v);
      WithScoreCons(t[0], t[1..], v);
      assert [t[0]] + t[1..] == t;
    }
  }

  lemma WithScoreCons(x: Edge, q: seq<Edge>, v: real)
    ensures WithScore([x] + q, v) == (if x.score == v then [x] else []) + WithScore(q, v)
  {
    assert ([x] + q)[1..] == q;
  }

  /** Picking the edges of one score distributes over concatenation. */
  lemma {:induction false} WithScoreAppend(a: seq<Edge>, b: seq<Edge>, v: real)
    ensures WithScore(a + b, v) == WithScore(a, v) + WithScore(b, v)
  {
    if a == [] {
      assert a + b == b;
    } else {
      var head := if a[0].score == v then [a[0]] else [];
      var tail, rest := WithScore(a[1..], v), WithScore(b, v);
      AppendCons(a, b);
      WithScoreCons(a[0], a[1..] + b, v);
      WithScoreAppend(a[1..], b, v);
      assert WithScore(a + b, v) == head + (tail + rest);
      AppendAssoc(head, tail, rest);
    }
  }

  /**
   * Python's `sorted(..., key=score, reverse=True)`: a stable sort into descending score
   * order. Stability: the edges of each score keep their relative order.
   */
  function SortDesc(s: seq<Edge>): (r: seq<Edge>)
    ensures Sorted(r)
    ensures forall v :: WithScore(r, v) == WithScore(s, v)
    ensures |r| == |s|
    ensures forall x :: x in r <==> x in s
  {
    if s == [] then []
    else
      var t := SortDesc(s[1..]);
      InsertSorted(s[0], t);
      assert forall v :: WithScore(Insert(s[0], t), v) == WithScore(s, v) by {
        forall v {
          InsertWithScore(s[0], t, v);
        }
      }
      Insert(s[0], t)
  }

  /** Every edge is in exactly one WithScore class. */
  lemma {:induction false} WithScoreHead(q: seq<Edge>)
    requires q != []
    ensures WithScore(q, q[0].score) == [q[0]] + WithScore(q[1..], q[0].score)
  {
  }

  /** A stable descending order is unique: SortDesc is the only stable sort there is. */
  lemma {:induction false} SortedUnique(a: seq<Edge>, b: seq<Edge>)
    requires Sorted(a) && Sorted(b)
    requires forall v :: WithScore(a, v) == WithScore(b, v)
    ensures a == b
    decreases |a| + |b|
  {
    if a == [] && b == [] {
    } else if a == [] {
      WithScoreHead(b);
      assert false;
    } else if b == [] {
      WithScoreHead(a);
      assert false;
    } else {
      MaxScoreAtHead(a, b[0]);
      MaxScoreAtHead(b, a[0]);
      assert a[0].score == b[0].score;
      var v := a[0].score;
      assert WithScore(a, v)[0] == a[0];
      assert WithScore(b, v)[0] == b[0];
      forall w
        ensures WithScore(a[1..], w) == WithScore(b[1..], w)
      {
        assert WithScore(a, w) == WithScore(b, w);
        if w == v {
          assert WithScore(a, w) == [a[0]] + WithScore(a[1..], w);
          assert WithScore(b, w) == [b[0]] + WithScore(b[1..], w);
          assert ([a[0]] + WithScore(a[1..], w))[1..] == WithScore(a[1..], w);
          assert ([b[0]] + WithScore(b[1..], w))[1..] == WithScore(b[1..], w);
        } else {
          assert WithScore(a, w) == WithScore(a[1..], w);
          assert WithScore(b, w) == WithScore(b[1..], w);
        }
      }
      SortedUnique(a[1..], b[1..]);
      assert a == [a[0]] + a[1..];
      assert b == [b[0]] + b[1..];
    }
  }

  /** The head of a descending queue scores at least as much as any score the queue holds. */
  lemma MaxScoreAtHead(a: seq<Edge>, e: Edge)
    requires Sorted(a) && a != []
    requires WithScore(a, e.score) != []
    ensures a[0].score >= e.score
  {
    var k := WithScoreMember(a, e.score);
  }

  lemma {:induction false} WithScoreMember(q: seq<Edge>, v: real) returns (k: nat)
    requires WithScore(q, v) != []
    ensures k < |q| && q[k].score == v
  {
    if q[0].score == v {
      k := 0;
    } else {
      var k' := WithScoreMember(q[1..], v);
      k := k' + 1;
    }
  }

  lemma UniqueCons(e: Edge, q: seq<Edge>)
    ensures UniqueKeys([e] + q) <==> (forall x | x in q :: Key(x) != Key(e)) && UniqueKeys(q)
  {
    var r := [e] + q;
    if UniqueKeys(r) {
      forall i, j | 0 <= i < j < |q|
        ensures Key(q[i]) != Key(q[j])
      {
        assert r[i + 1] == q[i] && r[j + 1] == q[j];
      }
      forall x | x in q
        ensures Key(x) != Key(e)
      {
        var k :| 0 <= k < |q| && q[k] == x;
        assert r[0] == e && r[k + 1] == x;
        assert Key(r[0]) != Key(r[k + 1]);
      }
    }
  }

  lemma UniqueAppend(a: seq<Edge>, b: seq<Edge>)
    requires UniqueKeys(a) && UniqueKeys(b)
    requires forall x, y | x in a && y in b :: Key(x) != Key(y)
    ensures UniqueKeys(a + b)
  {
    var r := a + b;
    forall i, j | 0 <= i < j < |r|
      ensures Key(r[i]) != Key(r[j])
    {
      if j < |a| {
        assert r[i] == a[i] && r[j] == a[j];
      } else if i < |a| {
        assert r[i] == a[i] && r[j] == b[j - |a|];
      } else {
        assert r[i] == b[i - |a|] && r[j] == b[j - |a|];
      }
    }
  }

  lemma {:induction false} InsertUnique(e: Edge, t: seq<Edge>)
    requires UniqueKeys(t)
    requires forall x | x in t :: Key(x) != Key(e)
    ensures UniqueKeys(Insert(e, t))
  {
    if t == [] || e.score >= t[0].score {
      UniqueCons(e, t);
    } else {
      UniqueCons(t[0], t[1..]);
      assert t == [t[0]] + t[1..];
      InsertUnique(e, t[1..]);
      UniqueCons(t[0], Insert(e, t[1..]));
    }
  }

  /** Sorting never makes two queue entries share a key. */
  lemma {:induction false} SortUnique(s: seq<Edge>)
    requires UniqueKeys(s)
    ensures UniqueKeys(SortDesc(s))
  {
    if s != [] {
      assert s == [s[0]] + s[1..];
      UniqueCons(s[0], s[1..]);
      SortUnique(s[1..]);
      InsertUnique(s[0], SortDesc(s[1..]));
    }
  }

  // ---- The initial candidates (packageorganizer.py:90-106) ----

  /** The projection of package `p` onto the root package, when the root has an embedding. */
  function RootEdge(p: Name, root: Option<Name>, score: (Name, Name) -> real): seq<Edge>
  {
    if root.Some? then [Edge({p}, root.value, score(p, root.value))] else []
  }

  /** The projections of package `p` onto every other package of `targets`, in order. */
  function EdgesOnto(p: Name, targets: seq<Name>, score: (Name, Name) -> real): (r: seq<Edge>)
    ensures forall e :: e in r <==>
      e.child == {p} && e.parent in targets && e.parent != p && e.score == score(p, e.parent)
    ensures Distinct(targets) ==> UniqueKeys(r)
  {
    if targets == [] then []
    else
      var head := if targets[0] == p then [] else [Edge({p}, targets[0], score(p, targets[0]))];
      var rest := EdgesOnto(p, targets[1..], score);
      assert Distinct(targets) ==> Distinct(targets[1..]) && targets[0] !in targets[1..];
      if targets[0] == p then rest
      else
        UniqueCons(head[0], rest);
        head + rest
  }

  /** `e` is one of the initial candidates of package `p`. */
  ghost predicate CandidateOf(p: Name, pkgs: seq<Name>, root: Option<Name>,
                              score: (Name, Name) -> real, e: Edge)
  {
    && e.child == {p}
    && e.score == score(p, e.parent)
    && ((e.parent in pkgs && e.parent != p) || root == Some(e.parent))
  }

  /**
   * The packages of `rest` in order, each with its root edge first, then its edges onto the
   * other packages in package order (:96-106). The contract states which edges occur; their
   * order, which the first sort uses to break ties between equal scores, is the one the body
   * builds.
   */
  function Enumerate(rest: seq<Name>, pkgs: seq<Name>, root: Option<Name>,
                     score: (Name, Name) -> real): (r: seq<Edge>)
    ensures forall e :: e in r <==> exists i | 0 <= i < |rest| :: CandidateOf(rest[i], pkgs, root, score, e)
  {
    if rest == [] then []
    else
      var tail := Enumerate(rest[1..], pkgs, root, score);
      assert forall e :: (exists i | 0 <= i < |rest| :: CandidateOf(rest[i], pkgs, root, score, e)) <==>
        CandidateOf(rest[0], pkgs, root, score, e)
        || exists i | 0 <= i < |rest| - 1 :: CandidateOf(rest[1..][i], pkgs, root, score, e) by {
        forall e | exists i | 0 <= i < |rest| :: CandidateOf(rest[i], pkgs, root, score, e)
          ensures CandidateOf(rest[0], pkgs, root, score, e)
                  || exists i | 0 <= i < |rest| - 1 :: CandidateOf(rest[1..][i], pkgs, root, score, e)
        {
          var i :| 0 <= i < |rest| && CandidateOf(rest[i], pkgs, root, score, e);
          if i > 0 {
            assert rest[1..][i - 1] == rest[i];
          }
        }
      }
      RootEdge(rest[0], root, score) + EdgesOnto(rest[0], pkgs, score) + tail
  }

  /**
   * Every candidate the organizer queues at the start, in enumeration order: the projections
   * of each package onto every other package and onto the root, if it has an embedding;
   * never a package onto itself.
   */
  function InitialEdges(pkgs: seq<Name>, root: Option<Name>, score: (Name, Name) -> real): (r: seq<Edge>)
    ensures forall e :: e in r <==>
      exists i | 0 <= i < |pkgs| ::
        && e.child == {pkgs[i]}
        && e.score == score(pkgs[i], e.parent)
        && ((e.parent in pkgs && e.parent != pkgs[i]) || root == Some(e.parent))
  {
    Enumerate(pkgs, pkgs, root, score)
  }

  lemma {:induction false} EnumerateUnique(rest: seq<Name>, pkgs: seq<Name>, root: Option<Name>,
                                           score: (Name, Name) -> real)
    requires Distinct(rest) && Distinct(pkgs)
    requires root.Some? ==> root.value !in pkgs
    ensures UniqueKeys(Enumerate(rest, pkgs, root, score))
  {
    if rest != [] {
      var p := rest[0];
      var tail := Enumerate(rest[1..], pkgs, root, score);
      assert Distinct(rest[1..]);
      EnumerateUnique(rest[1..], pkgs, root, score);
      var own := EdgesOnto(p, pkgs, score);
      var re := RootEdge(p, root, score);
      forall x, y | x in own && y in tail
        ensures Key(x) != Key(y)
      {
        var i :| 0 <= i < |rest| - 1 && CandidateOf(rest[1..][i], pkgs, root, score, y);
        assert rest[1..][i] == rest[i + 1] != p;
      }
      UniqueAppend(own, tail);
      forall x, y | x in re && y in own + tail
        ensures Key(x) != Key(y)
      {
        if y in tail {
          var i :| 0 <= i < |rest| - 1 && CandidateOf(rest[1..][i], pkgs, root, score, y);
          assert rest[1..][i] == rest[i + 1] != p;
        }
      }
      UniqueAppend(re, own + tail);
      assert re + own + tail == re + (own + tail);
    }
  }
}
