/** Small sequence helpers used by the candidate queue and the merge step. */
module Seqs {

  /** No element occurs twice. */
  ghost predicate Distinct<T>(xs: seq<T>)
  {
    forall i, j | 0 <= i < j < |xs| :: xs[i] != xs[j]
  }

  /** The elements of `xs` not in `seen`, each kept at its first occurrence, in order. */
  function DedupFrom<T(==,!new)>(xs: seq<T>, seen: set<T>): (r: seq<T>)
    ensures Distinct(r)
    ensures forall x :: x in r <==> x in xs && x !in seen
  {
    if xs == [] then []
    else if xs[0] in seen then DedupFrom(xs[1..], seen)
    else
      var rest := DedupFrom(xs[1..], seen + {xs[0]});
      [xs[0]] + rest
  }

  /** Concatenation regrouped around the head of a non-empty left operand. */
  lemma AppendCons<T>(a: seq<T>, b: seq<T>)
    requires a != []
    ensures a + b == [a[0]] + (a[1..] + b)
  {
  }

  lemma AppendAssoc<T>(a: seq<T>, b: seq<T>, c: seq<T>)
    ensures a + (b + c) == (a + b) + c
  {
  }

  /** The position of the first occurrence of `x` in `xs`. */
  function FirstIndex<T(==)>(xs: seq<T>, x: T): (k: nat)
    requires x in xs
    ensures k < |xs| && xs[k] == x
    ensures forall j | 0 <= j < k :: xs[j] != x
  {
    if xs[0] == x then 0 else 1 + FirstIndex(xs[1..], x)
  }

  /** Keeps the first occurrence of every element: the iteration order of a Python dict
      built by inserting the elements of `xs` one by one. */
  function Dedup<T(==,!new)>(xs: seq<T>): (r: seq<T>)
    ensures Distinct(r)
    ensures forall x :: x in r <==> x in xs
  {
    DedupFrom(xs, {})
  }

  lemma FirstIndexTail<T>(xs: seq<T>, y: T)
    requires xs != [] && y in xs[1..] && y != xs[0]
    ensures FirstIndex(xs, y) == 1 + FirstIndex(xs[1..], y)
  {
  }

  /** The elements kept by `DedupFrom` come in the order of their first occurrences. */
  lemma {:induction false} DedupFromOrder<T(!new)>(xs: seq<T>, seen: set<T>)
    ensures forall a, b | 0 <= a < b < |DedupFrom(xs, seen)| ::
              FirstIndex(xs, DedupFrom(xs, seen)[a]) < FirstIndex(xs, DedupFrom(xs, seen)[b])
  {
    if xs == [] {
    } else if xs[0] in seen {
      assert forall y | y in xs[1..] :: y in xs;
      var rest := DedupFrom(xs[1..], seen);
      DedupFromOrder(xs[1..], seen);
      TailOrder(xs, rest);
    } else {
      assert forall y | y in xs[1..] :: y in xs;
      var rest := DedupFrom(xs[1..], seen + {xs[0]});
      DedupFromOrder(xs[1..], seen + {xs[0]});
      TailOrder(xs, rest);
      var r := [xs[0]] + rest;
      assert DedupFrom(xs, seen) == r;
      forall b | 0 < b < |r|
        ensures FirstIndex(xs, r[0]) < FirstIndex(xs, r[b])
      {
        assert r[b] == rest[b - 1];
      }
    }
  }

  /** Elements of the tail, other than the head, are ordered by first occurrence in the tail or in the whole. */
  lemma TailOrder<T>(xs: seq<T>, rest: seq<T>)
    requires xs != []
    requires forall y | y in rest :: y in xs && y in xs[1..] && y != xs[0]
    requires forall a, b | 0 <= a < b < |rest| :: FirstIndex(xs[1..], rest[a]) < FirstIndex(xs[1..], rest[b])
    ensures forall a, b | 0 <= a < b < |rest| :: FirstIndex(xs, rest[a]) < FirstIndex(xs, rest[b])
    ensures forall a | 0 <= a < |rest| :: FirstIndex(xs, rest[a]) > 0
  {
    forall a | 0 <= a < |rest|
      ensures FirstIndex(xs, rest[a]) == 1 + FirstIndex(xs[1..], rest[a])
    {
      assert rest[a] in rest;
      FirstIndexTail(xs, rest[a]);
    }
  }

  /**
   * `Dedup` lists each element once, in the order of its first occurrence: with distinctness
   * and membership this determines the result.
   */
  lemma DedupOrder<T(!new)>(xs: seq<T>)
    ensures forall a, b | 0 <= a < b < |Dedup(xs)| :: FirstIndex(xs, Dedup(xs)[a]) < FirstIndex(xs, Dedup(xs)[b])
  {
    assert Dedup(xs) == DedupFrom(xs, {});
    DedupFromOrder(xs, {});
  }

  function Sum(xs: seq<real>): real
  {
    if xs == [] then 0.0 else xs[0] + Sum(xs[1..])
  }

  lemma {:induction false} SumAppend(xs: seq<real>, ys: seq<real>)
    ensures Sum(xs + ys) == Sum(xs) + Sum(ys)
  {
    if xs == [] {
      assert xs + ys == ys;
    } else {
      assert (xs + ys)[1..] == xs[1..] + ys;
      SumAppend(xs[1..], ys);
    }
  }

  /** Arithmetic mean, as numpy's `average` computes it over exact reals. */
  function Mean(xs: seq<real>): (m: real)
    requires |xs| > 0
    ensures m * (|xs| as real) == Sum(xs)
  {
    Sum(xs) / (|xs| as real)
  }

  /** The mean of scores all at least `lo` is itself at least `lo`. */
  lemma {:induction false} SumLowerBound(xs: seq<real>, lo: real)
    requires forall i | 0 <= i < |xs| :: xs[i] >= lo
    ensures Sum(xs) >= lo * (|xs| as real)
  {
    if xs != [] {
      SumLowerBound(xs[1..], lo);
    }
  }

  lemma MeanLowerBound(xs: seq<real>, lo: real)
    requires |xs| > 0
    requires forall i | 0 <= i < |xs| :: xs[i] >= lo
    ensures Mean(xs) >= lo
  {
    SumLowerBound(xs, lo);
  }
}
