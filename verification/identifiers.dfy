/**
 * The identifier helpers of proposedmethod/common.py: `split_case` (a regular-expression
 * `findall`), `flatten` over nested lists, and the post-processing of the field and method
 * names that `get_class_identifiers` collects from a class.
 */
module Identifiers {
  import opened Wrappers

  // ---- Character classes of the pattern (ASCII only, as `[A-Z]` and `[a-z]` are) ----

  predicate IsUpper(c: char) { 'A' <= c <= 'Z' }
  predicate IsLower(c: char) { 'a' <= c <= 'z' }
  predicate IsLetter(c: char) { IsUpper(c) || IsLower(c) }

  predicate AllLower(w: string) { forall k | 0 <= k < |w| :: IsLower(w[k]) }
  predicate AllUpper(w: string) { forall k | 0 <= k < |w| :: IsUpper(w[k]) }

  /**
   * The words the pattern `[A-Z]?[a-z]+|[A-Z]+(?![a-z])` can match: an optional capital
   * followed by lower-case letters, or a run of capitals.
   */
  predicate Word(w: string)
  {
    || (|w| >= 1 && AllLower(w))
    || (|w| >= 2 && IsUpper(w[0]) && AllLower(w[1..]))
    || (|w| >= 1 && AllUpper(w))
  }

  /** The ASCII letters of `s`, in order. */
  function Letters(s: string): (r: string)
    ensures |r| <= |s|
    ensures forall k | 0 <= k < |r| :: IsLetter(r[k])
  {
    if s == [] then []
    else (if IsLetter(s[0]) then [s[0]] else []) + Letters(s[1..])
  }

  function Concat(ws: seq<string>): string
  {
    if ws == [] then [] else ws[0] + Concat(ws[1..])
  }

  // ---- split_case (common.py:24-25) ----

  /** The end of the run of lower-case letters starting at `i`. */
  function LowerRun(s: string, i: nat): (j: nat)
    requires i <= |s|
    ensures i <= j <= |s|
    ensures forall k | i <= k < j :: IsLower(s[k])
    ensures j == |s| || !IsLower(s[j])
    decreases |s| - i
  {
    if i < |s| && IsLower(s[i]) then LowerRun(s, i + 1) else i
  }

  /** The end of the run of capitals starting at `i`. */
  function UpperRun(s: string, i: nat): (j: nat)
    requires i <= |s|
    ensures i <= j <= |s|
    ensures forall k | i <= k < j :: IsUpper(s[k])
    ensures j == |s| || !IsUpper(s[j])
    decreases |s| - i
  {
    if i < |s| && IsUpper(s[i]) then UpperRun(s, i + 1) else i
  }

  /**
   * Where the pattern's match starting at `i` ends, or `i` itself when nothing matches there.
   * The first alternative wins when it matches: a capital followed by a lower-case letter, or
   * a lower-case letter, takes the whole lower-case run after it. Otherwise the second takes
   * the run of capitals, giving back its last capital when a lower-case letter follows.
   */
  function MatchAt(s: string, i: nat): (j: nat)
    requires i <= |s|
    ensures i <= j <= |s|
    ensures i < |s| ==> (j == i <==> !IsLetter(s[i]))
  {
    if i == |s| then i
    else if IsLower(s[i]) then LowerRun(s, i)
    else if IsUpper(s[i]) then
      if i + 1 < |s| && IsLower(s[i + 1]) then LowerRun(s, i + 1)
      else
        var u := UpperRun(s, i);
        if u < |s| && IsLower(s[u]) then u - 1 else u
    else i
  }

  /**
   * A match is a word of the pattern that no lower-case letter follows; a run of capitals
   * stops short of a capital only to leave it to the lower-case letters after it; and the
   * first alternative wins when a capital is followed by a lower-case letter.
   */
  lemma MatchShape(s: string, i: nat)
    requires i <= |s|
    ensures var j := MatchAt(s, i);
            && (j > i ==> Word(s[i..j]) && (j == |s| || !IsLower(s[j])))
            && (j > i && AllUpper(s[i..j]) && j < |s| && IsUpper(s[j]) ==> j + 1 < |s| && IsLower(s[j + 1]))
            && (j > i && i + 1 < |s| && IsUpper(s[i]) && IsLower(s[i + 1]) ==> AllLower(s[i + 1..j]))
  {
    if i < |s| {
      if IsLower(s[i]) {
        var j := LowerRun(s, i);
        assert AllLower(s[i..j]);
      } else if IsUpper(s[i]) {
        if i + 1 < |s| && IsLower(s[i + 1]) {
          var j := LowerRun(s, i + 1);
          assert s[i..j][1..] == s[i + 1..j];
        } else {
          var u := UpperRun(s, i);
          if u < |s| && IsLower(s[u]) {
            assert AllUpper(s[i..u - 1]);
          } else {
            assert AllUpper(s[i..u]);
          }
        }
      }
    }
  }

  /** All matches from position `i` on, left to right, as `re.findall` returns them. */
  function SplitFrom(s: string, i: nat): (r: seq<string>)
    requires i <= |s|
    ensures forall t | t in r :: Word(t)
    decreases |s| - i
  {
    if i == |s| then []
    else
      var j := MatchAt(s, i);
      MatchShape(s, i);
      if j == i then SplitFrom(s, i + 1) else [s[i..j]] + SplitFrom(s, j)
  }

  /** Where the matches found from position `i` on start. */
  function Starts(s: string, i: nat): (r: seq<nat>)
    requires i <= |s|
    ensures forall k | 0 <= k < |r| :: i <= r[k] < |s|
    decreases |s| - i
  {
    if i == |s| then []
    else
      var j := MatchAt(s, i);
      if j == i then Starts(s, i + 1) else [i] + Starts(s, j)
  }

  /**
   * `ws` is what a left-to-right scan of `s` from `i` finds, with the matches starting at
   * `starts`: each word is the pattern's match at its start, each match begins at or after the
   * end of the one before, and together they cover every letter from `i` on.
   */
  ghost predicate Scan(s: string, i: nat, starts: seq<nat>, ws: seq<string>)
  {
    && i <= |s|
    && |starts| == |ws|
    && (forall k | 0 <= k < |starts| ::
          i <= starts[k] < |s| && starts[k] < MatchAt(s, starts[k]) && ws[k] == s[starts[k]..MatchAt(s, starts[k])])
    && (forall k, l | 0 <= k < l < |starts| :: MatchAt(s, starts[k]) <= starts[l])
    && (forall p {:trigger Covered(s, starts, p)} | i <= p < |s| && IsLetter(s[p]) :: Covered(s, starts, p))
  }

  /** Position `p` lies inside one of the matches starting at `starts`. */
  ghost predicate Covered(s: string, starts: seq<nat>, p: nat)
  {
    exists k | 0 <= k < |starts| :: starts[k] < |s| && starts[k] <= p < MatchAt(s, starts[k])
  }

  /** A non-letter at `i` can be skipped. */
  lemma ScanSkip(s: string, i: nat, starts: seq<nat>, ws: seq<string>)
    requires i < |s| && !IsLetter(s[i])
    requires Scan(s, i + 1, starts, ws)
    ensures Scan(s, i, starts, ws)
  {
  }

  /** A match at `i` followed by a scan from its end is a scan from `i`. */
  lemma ScanCons(s: string, i: nat, starts: seq<nat>, ws: seq<string>)
    requires i < |s| && i < MatchAt(s, i)
    requires Scan(s, MatchAt(s, i), starts, ws)
    ensures Scan(s, i, [i] + starts, [s[i..MatchAt(s, i)]] + ws)
  {
    ConsWords(s, i, starts, ws);
    ConsOrdered(s, i, starts);
    ConsCovers(s, i, starts);
  }

  lemma ConsWords(s: string, i: nat, starts: seq<nat>, ws: seq<string>)
    requires i < |s| && i < MatchAt(s, i)
    requires |starts| == |ws|
    requires forall k | 0 <= k < |starts| ::
               MatchAt(s, i) <= starts[k] < |s| && starts[k] < MatchAt(s, starts[k]) && ws[k] == s[starts[k]..MatchAt(s, starts[k])]
    ensures var st, vs := [i] + starts, [s[i..MatchAt(s, i)]] + ws;
            forall k | 0 <= k < |st| :: i <= st[k] < |s| && st[k] < MatchAt(s, st[k]) && vs[k] == s[st[k]..MatchAt(s, st[k])]
  {
    var st, vs := [i] + starts, [s[i..MatchAt(s, i)]] + ws;
    forall k | 0 <= k < |st|
      ensures i <= st[k] < |s| && st[k] < MatchAt(s, st[k]) && vs[k] == s[st[k]..MatchAt(s, st[k])]
    {
      if k > 0 {
        assert st[k] == starts[k - 1] && vs[k] == ws[k - 1];
      }
    }
  }

  lemma ConsOrdered(s: string, i: nat, starts: seq<nat>)
    requires i < |s|
    requires forall k | 0 <= k < |starts| :: MatchAt(s, i) <= starts[k] <= |s|
    requires forall k, l | 0 <= k < l < |starts| :: starts[k] <= |s| && MatchAt(s, starts[k]) <= starts[l]
    ensures var st := [i] + starts;
            forall k, l | 0 <= k < l < |st| :: st[k] <= |s| && MatchAt(s, st[k]) <= st[l]
  {
    var st := [i] + starts;
    forall k, l | 0 <= k < l < |st|
      ensures st[k] <= |s| && MatchAt(s, st[k]) <= st[l]
    {
      assert st[l] == starts[l - 1];
      if k > 0 {
        assert st[k] == starts[k - 1];
      }
    }
  }

  lemma ConsCovers(s: string, i: nat, starts: seq<nat>)
    requires i < |s| && i < MatchAt(s, i)
    requires forall p {:trigger Covered(s, starts, p)} | MatchAt(s, i) <= p < |s| && IsLetter(s[p]) :: Covered(s, starts, p)
    ensures forall p {:trigger Covered(s, [i] + starts, p)} | i <= p < |s| && IsLetter(s[p]) :: Covered(s, [i] + starts, p)
  {
    var st := [i] + starts;
    forall p | i <= p < |s| && IsLetter(s[p])
      ensures Covered(s, st, p)
    {
      if p < MatchAt(s, i) {
        assert st[0] <= p < MatchAt(s, st[0]);
      } else {
        assert Covered(s, starts, p);
        var k :| 0 <= k < |starts| && starts[k] < |s| && starts[k] <= p < MatchAt(s, starts[k]);
        assert st[k + 1] == starts[k];
      }
    }
  }

  /** The matches `SplitFrom` finds are a scan of `s` from `i`. */
  lemma {:induction false} SplitFromScan(s: string, i: nat)
    requires i <= |s|
    ensures Scan(s, i, Starts(s, i), SplitFrom(s, i))
    decreases |s| - i
  {
    if i < |s| {
      var j := MatchAt(s, i);
      if j == i {
        SplitFromScan(s, i + 1);
        ScanSkip(s, i, Starts(s, i + 1), SplitFrom(s, i + 1));
      } else {
        SplitFromScan(s, j);
        ScanCons(s, i, Starts(s, j), SplitFrom(s, j));
      }
    }
  }

  /** A scan from a letter starts with the match at that letter. */
  lemma ScanHead(s: string, i: nat, starts: seq<nat>, ws: seq<string>)
    requires Scan(s, i, starts, ws) && i < |s| && IsLetter(s[i])
    ensures starts != [] && starts[0] == i
  {
    assert Covered(s, starts, i);
  }

  /** After its first match, a scan from `i` is a scan from that match's end. */
  lemma ScanTail(s: string, i: nat, starts: seq<nat>, ws: seq<string>)
    requires Scan(s, i, starts, ws) && starts != [] && starts[0] == i
    ensures Scan(s, MatchAt(s, i), starts[1..], ws[1..])
  {
    TailWords(s, i, starts, ws);
    TailOrdered(s, starts);
    TailCovers(s, i, starts);
  }

  lemma TailWords(s: string, i: nat, starts: seq<nat>, ws: seq<string>)
    requires |starts| == |ws| && starts != [] && starts[0] == i < |s|
    requires forall k | 0 <= k < |starts| ::
               starts[k] < |s| && starts[k] < MatchAt(s, starts[k]) && ws[k] == s[starts[k]..MatchAt(s, starts[k])]
    requires forall k, l | 0 <= k < l < |starts| :: starts[k] <= |s| && MatchAt(s, starts[k]) <= starts[l]
    ensures var st, vs := starts[1..], ws[1..];
            forall k | 0 <= k < |st| ::
              MatchAt(s, i) <= st[k] < |s| && st[k] < MatchAt(s, st[k]) && vs[k] == s[st[k]..MatchAt(s, st[k])]
  {
    var st, vs := starts[1..], ws[1..];
    forall k | 0 <= k < |st|
      ensures MatchAt(s, i) <= st[k] < |s| && st[k] < MatchAt(s, st[k]) && vs[k] == s[st[k]..MatchAt(s, st[k])]
    {
      assert st[k] == starts[k + 1] && vs[k] == ws[k + 1];
    }
  }

  lemma TailOrdered(s: string, starts: seq<nat>)
    requires starts != []
    requires forall k | 0 <= k < |starts| :: starts[k] <= |s|
    requires forall k, l | 0 <= k < l < |starts| :: MatchAt(s, starts[k]) <= starts[l]
    ensures forall k, l | 0 <= k < l < |starts| - 1 :: MatchAt(s, starts[1..][k]) <= starts[1..][l]
  {
    var st := starts[1..];
    forall k, l | 0 <= k < l < |st|
      ensures MatchAt(s, st[k]) <= st[l]
    {
      assert st[k] == starts[k + 1] && st[l] == starts[l + 1];
    }
  }

  lemma TailCovers(s: string, i: nat, starts: seq<nat>)
    requires starts != [] && starts[0] == i < |s|
    requires forall k, l | 0 <= k < l < |starts| :: starts[k] <= |s| && MatchAt(s, starts[k]) <= starts[l]
    requires forall p {:trigger Covered(s, starts, p)} | i <= p < |s| && IsLetter(s[p]) :: Covered(s, starts, p)
    ensures forall p {:trigger Covered(s, starts[1..], p)} | MatchAt(s, i) <= p < |s| && IsLetter(s[p]) :: Covered(s, starts[1..], p)
  {
    var rest := starts[1..];
    forall p | MatchAt(s, i) <= p < |s| && IsLetter(s[p])
      ensures Covered(s, rest, p)
    {
      assert Covered(s, starts, p);
      var k :| 0 <= k < |starts| && starts[k] < |s| && starts[k] <= p < MatchAt(s, starts[k]);
      assert k > 0;
      assert rest[k - 1] == starts[k];
    }
  }

  /** A non-letter at `i` starts no match. */
  lemma ScanSkipBack(s: string, i: nat, starts: seq<nat>, ws: seq<string>)
    requires Scan(s, i, starts, ws) && i < |s| && !IsLetter(s[i])
    ensures Scan(s, i + 1, starts, ws)
  {
    forall k | 0 <= k < |starts|
      ensures starts[k] != i
    {
    }
  }

  /** Two scans of `s` from `i` find the same words: the description determines the result. */
  lemma {:induction false} ScanUnique(s: string, i: nat, a: seq<nat>, ws: seq<string>, b: seq<nat>, vs: seq<string>)
    requires Scan(s, i, a, ws) && Scan(s, i, b, vs)
    ensures ws == vs
    decreases |s| - i
  {
    if i == |s| {
      assert |a| == 0 && |b| == 0;
    } else if !IsLetter(s[i]) {
      ScanSkipBack(s, i, a, ws);
      ScanSkipBack(s, i, b, vs);
      ScanUnique(s, i + 1, a, ws, b, vs);
    } else {
      ScanHead(s, i, a, ws);
      ScanHead(s, i, b, vs);
      ScanTail(s, i, a, ws);
      ScanTail(s, i, b, vs);
      ScanUnique(s, MatchAt(s, i), a[1..], ws[1..], b[1..], vs[1..]);
      assert ws == [ws[0]] + ws[1..];
      assert vs == [vs[0]] + vs[1..];
    }
  }

  /** Splits an identifier into its camelCase, PascalCase and snake_case words. */
  function SplitCase(s: string): (r: seq<string>)
    ensures forall t | t in r :: Word(t)
  {
    SplitFrom(s, 0)
  }

  /**
   * The words `SplitCase` returns are exactly the description of a left-to-right scan: each is
   * the pattern's match at its start, the matches do not overlap and stand in order, and they
   * cover every letter of the identifier. No other list of words meets that description.
   */
  lemma SplitCaseScan(s: string, starts: seq<nat>, ws: seq<string>)
    ensures Scan(s, 0, Starts(s, 0), SplitCase(s))
    ensures Scan(s, 0, starts, ws) ==> ws == SplitCase(s)
  {
    SplitFromScan(s, 0);
    if Scan(s, 0, starts, ws) {
      ScanUnique(s, 0, starts, ws, Starts(s, 0), SplitCase(s));
    }
  }

  lemma {:induction false} LettersOfLetters(s: string, i: nat, j: nat)
    requires i <= j <= |s|
    requires forall k | i <= k < j :: IsLetter(s[k])
    ensures Letters(s[i..]) == s[i..j] + Letters(s[j..])
    decreases j - i
  {
    if i < j {
      assert s[i..][1..] == s[i + 1..];
      LettersOfLetters(s, i + 1, j);
      assert s[i..j] == [s[i]] + s[i + 1..j];
    }
  }

  lemma {:induction false} SplitFromLetters(s: string, i: nat)
    requires i <= |s|
    ensures Concat(SplitFrom(s, i)) == Letters(s[i..])
    decreases |s| - i
  {
    if i < |s| {
      var j := MatchAt(s, i);
      if j == i {
        assert s[i..][1..] == s[i + 1..];
        SplitFromLetters(s, i + 1);
      } else {
        var w := s[i..j];
        assert forall k | i <= k < j :: IsLetter(s[k]) by {
          forall k | i <= k < j
            ensures IsLetter(s[k])
          {
            assert w[k - i] == s[k];
          }
        }
        LettersOfLetters(s, i, j);
        SplitFromLetters(s, j);
        assert ([w] + SplitFrom(s, j))[1..] == SplitFrom(s, j);
      }
    }
  }

  /**
   * The words, joined, are exactly the ASCII letters of the identifier: digits, underscores
   * and other characters are dropped, and no letter is lost or reordered.
   */
  lemma SplitCaseLetters(s: string)
    ensures Concat(SplitCase(s)) == Letters(s)
  {
    SplitFromLetters(s, 0);
    assert s[0..] == s;
  }

  /** An identifier splits into no words exactly when it has no ASCII letter. */
  lemma SplitCaseEmpty(s: string)
    ensures SplitCase(s) == [] <==> Letters(s) == []
  {
    SplitCaseLetters(s);
    var ws := SplitCase(s);
    if ws != [] {
      assert Word(ws[0]) && ws[0] != [];
      assert Concat(ws) == ws[0] + Concat(ws[1..]);
    }
  }

  /** The two examples of the function's documentation (common.py:12-22). */
  lemma SplitCaseCamel()
    ensures SplitCase("camelCase") == ["camel", "Case"]
  {
    var a := "camelCase";
    assert MatchAt(a, 0) == 5 by {
      assert LowerRun(a, 5) == 5;
    }
    assert MatchAt(a, 5) == 9;
    assert SplitFrom(a, 9) == [];
    assert SplitFrom(a, 5) == [a[5..9]] + SplitFrom(a, 9);
    assert SplitFrom(a, 0) == [a[0..5]] + SplitFrom(a, 5);
    assert a[0..5] == "camel" && a[5..9] == "Case";
  }

  lemma SplitCasePascal()
    ensures SplitCase("PascalXYCase") == ["Pascal", "XY", "Case"]
  {
    var b := "PascalXYCase";
    PascalMatches();
    assert SplitFrom(b, 12) == [];
    assert SplitFrom(b, 8) == [b[8..12]] + SplitFrom(b, 12);
    assert SplitFrom(b, 6) == [b[6..8]] + SplitFrom(b, 8);
    assert SplitFrom(b, 0) == [b[0..6]] + SplitFrom(b, 6);
    assert b[0..6] == "Pascal" && b[6..8] == "XY" && b[8..12] == "Case";
  }

  /** The token boundaries the scanner finds in "PascalXYCase". */
  lemma PascalMatches()
    ensures MatchAt("PascalXYCase", 0) == 6
    ensures MatchAt("PascalXYCase", 6) == 8
    ensures MatchAt("PascalXYCase", 8) == 12
  {
    var b := "PascalXYCase";
    assert LowerRun(b, 6) == 6;
    assert UpperRun(b, 9) == 9;
  }

  // ---- flatten (common.py:74-81) ----

  /** A Python list whose items are lists or other values. */
  datatype Nested<T> = Leaf(value: T) | List(items: seq<Nested<T>>)

  /** The non-list items of a nested list, left to right. */
  function Flatten<T>(xs: seq<Nested<T>>): seq<T>
    decreases xs
  {
    if xs == [] then []
    else
      (match xs[0]
       case Leaf(v) => [v]
       case List(ys) => Flatten(ys))
      + Flatten(xs[1..])
  }

  /** Flattening a list with no nested lists returns its items. */
  lemma {:induction false} FlattenFlat<T>(xs: seq<T>)
    ensures Flatten(seq(|xs|, k requires 0 <= k < |xs| => Leaf(xs[k]))) == xs
  {
    if xs != [] {
      var ls := seq(|xs|, k requires 0 <= k < |xs| => Leaf(xs[k]));
      FlattenFlat(xs[1..]);
      assert ls[1..] == seq(|xs[1..]|, k requires 0 <= k < |xs[1..]| => Leaf(xs[1..][k]));
    }
  }

  /** Flattening distributes over concatenation. */
  lemma {:induction false} FlattenAppend<T>(a: seq<Nested<T>>, b: seq<Nested<T>>)
    ensures Flatten(a + b) == Flatten(a) + Flatten(b)
  {
    if a == [] {
      assert a + b == b;
    } else {
      var head := match a[0] case Leaf(v) => [v] case List(ys) => Flatten(ys);
      assert (a + b)[0] == a[0];
      assert (a + b)[1..] == a[1..] + b;
      FlattenAppend(a[1..], b);
      assert Flatten(a + b) == head + Flatten(a[1..] + b);
      assert Flatten(a) == head + Flatten(a[1..]);
    }
  }

  /** Wrapping a list in another list does not change its flattening. */
  lemma FlattenWrap<T>(xs: seq<Nested<T>>)
    ensures Flatten([List(xs)]) == Flatten(xs)
  {
    assert [List(xs)][1..] == [];
  }

  /** A value is in the flattening exactly when it is a leaf at some depth. */
  ghost predicate HasLeaf<T>(xs: seq<Nested<T>>, v: T)
    decreases xs
  {
    exists k | 0 <= k < |xs| ::
      match xs[k]
      case Leaf(w) => w == v
      case List(ys) => HasLeaf(ys, v)
  }

  lemma {:induction false} FlattenLeaves<T>(xs: seq<Nested<T>>, v: T)
    ensures v in Flatten(xs) <==> HasLeaf(xs, v)
    decreases xs
  {
    if xs != [] {
      var head := match xs[0] case Leaf(w) => [w] case List(ys) => Flatten(ys);
      assert Flatten(xs) == head + Flatten(xs[1..]);
      FlattenLeaves(xs[1..], v);
      match xs[0]
      case Leaf(w) =>
      case List(ys) =>
        FlattenLeaves(ys, v);
      if HasLeaf(xs[1..], v) {
        var k :| 0 <= k < |xs[1..]| && match xs[1..][k] case Leaf(w) => w == v case List(ys) => HasLeaf(ys, v);
        assert xs[k + 1] == xs[1..][k];
      }
      if HasLeaf(xs, v) {
        var k :| 0 <= k < |xs| && match xs[k] case Leaf(w) => w == v case List(ys) => HasLeaf(ys, v);
        if k > 0 {
          assert xs[1..][k - 1] == xs[k];
        }
      }
    }
  }

  // ---- Post-processing of identifiers (common.py:164-172) ----

  /** `str.lower` on one character: a capital becomes the lower-case letter at its place in the alphabet. */
  function LowerChar(c: char): (d: char)
    ensures IsLetter(c) ==> IsLower(d)
    ensures IsUpper(c) ==> d as int - 'a' as int == c as int - 'A' as int
    ensures !IsUpper(c) ==> d == c
  {
    if IsUpper(c) then (c as int - 'A' as int + 'a' as int) as char else c
  }

  /** `str.lower` on a string of ASCII letters. */
  function Lower(w: string): (r: string)
    ensures |r| == |w|
    ensures forall k | 0 <= k < |w| :: r[k] == LowerChar(w[k])
  {
    if w == [] then [] else [LowerChar(w[0])] + Lower(w[1..])
  }

  /** Every word lower-cased. */
  function LowerWords(ws: seq<string>): (r: seq<string>)
    ensures |r| == |ws|
    ensures forall k | 0 <= k < |ws| :: r[k] == Lower(ws[k])
  {
    if ws == [] then [] else [Lower(ws[0])] + LowerWords(ws[1..])
  }

  /** A lower-cased word of the pattern is a non-empty run of lower-case letters. */
  lemma LowerWord(w: string)
    requires Word(w)
    ensures Lower(w) != [] && AllLower(Lower(w))
  {
    forall k | 0 <= k < |w|
      ensures IsLetter(w[k])
    {
      if |w| >= 2 && IsUpper(w[0]) && AllLower(w[1..]) && k > 0 {
        assert w[1..][k - 1] == w[k];
      }
    }
  }

  /** Each field name becomes its words, lower-cased; none is dropped (:164-166). */
  function Fields(names: seq<string>): (r: seq<seq<string>>)
    ensures |r| == |names|
    ensures forall i | 0 <= i < |names| :: r[i] == LowerWords(SplitCase(names[i]))
  {
    if names == [] then [] else [LowerWords(SplitCase(names[0]))] + Fields(names[1..])
  }

  /** Words that are all non-empty runs of lower-case letters. */
  predicate LowerCased(ws: seq<string>)
  {
    forall t | t in ws :: t != [] && AllLower(t)
  }

  /** The lower-cased words of an identifier are non-empty runs of lower-case letters. */
  lemma LowerWordsOfSplit(s: string, from: nat)
    requires from <= |SplitCase(s)|
    ensures LowerCased(LowerWords(SplitCase(s)[from..]))
  {
    var ws := SplitCase(s)[from..];
    var lw := LowerWords(ws);
    forall t | t in lw
      ensures t != [] && AllLower(t)
    {
      var k :| 0 <= k < |lw| && lw[k] == t;
      assert ws[k] in SplitCase(s);
      LowerWord(ws[k]);
    }
  }

  /** Field identifiers keep one entry per name, every word a non-empty lower-case run. */
  lemma FieldsLower(names: seq<string>)
    ensures |Fields(names)| == |names|
    ensures forall i | 0 <= i < |names| :: LowerCased(Fields(names)[i])
  {
    forall i | 0 <= i < |names|
      ensures LowerCased(Fields(names)[i])
    {
      LowerWordsOfSplit(names[i], 0);
      assert SplitCase(names[i])[0..] == SplitCase(names[i]);
    }
  }

  /**
   * Each method name loses its first word; names left without words are dropped and the
   * rest are lower-cased (:167-172). A name without any word has no first word to remove,
   * which the source reports as an `IndexError`.
   */
  function Methods(names: seq<string>): (r: Result<seq<seq<string>>, string>)
    ensures r.Failure? <==> exists i | 0 <= i < |names| :: SplitCase(names[i]) == []
    ensures r.Success? ==> forall w | w in r.value ::
              exists i | 0 <= i < |names| :: |SplitCase(names[i])| >= 2 && w == LowerWords(SplitCase(names[i])[1..])
    ensures r.Success? ==> forall i | 0 <= i < |names| && |SplitCase(names[i])| >= 2 ::
              LowerWords(SplitCase(names[i])[1..]) in r.value
  {
    if names == [] then Success([])
    else
      var ws := SplitCase(names[0]);
      if ws == [] then Failure("IndexError: list index out of range")
      else
        match Methods(names[1..])
        case Failure(err) => Failure(err)
        case Success(rest) =>
          Success((if |ws| == 1 then [] else [LowerWords(ws[1..])]) + rest)
  }

  /** The positions, from `i` on, of the method names with at least two words. */
  function Survivors(names: seq<string>, i: nat): (r: seq<nat>)
    requires i <= |names|
    ensures forall k | 0 <= k < |r| :: i <= r[k] < |names| && |SplitCase(names[r[k]])| >= 2
    decreases |names| - i
  {
    if i == |names| then []
    else if |SplitCase(names[i])| >= 2 then [i] + Survivors(names, i + 1)
    else Survivors(names, i + 1)
  }

  /** The survivors stand in increasing order, so the filter at :170 keeps the list order. */
  lemma {:induction false} SurvivorsOrdered(names: seq<string>, i: nat)
    requires i <= |names|
    ensures forall k, l | 0 <= k < l < |Survivors(names, i)| :: Survivors(names, i)[k] < Survivors(names, i)[l]
    decreases |names| - i
  {
    if i < |names| {
      SurvivorsOrdered(names, i + 1);
      var later := Survivors(names, i + 1);
      if |SplitCase(names[i])| >= 2 {
        var r := [i] + later;
        assert Survivors(names, i) == r;
        forall k, l | 0 <= k < l < |r|
          ensures r[k] < r[l]
        {
          assert r[l] == later[l - 1];
        }
      }
    }
  }

  /** Every position from `i` on whose name has at least two words survives the filter at :170. */
  lemma {:induction false} SurvivorsComplete(names: seq<string>, i: nat)
    requires i <= |names|
    ensures forall j | i <= j < |names| && |SplitCase(names[j])| >= 2 :: j in Survivors(names, i)
    decreases |names| - i
  {
    if i < |names| {
      SurvivorsComplete(names, i + 1);
    }
  }

  /** Entry `k` of `vals` is the name at `pos[k]` without its first word, lower-cased. */
  ghost predicate Entries(names: seq<string>, vals: seq<seq<string>>, pos: seq<nat>)
  {
    && |vals| == |pos|
    && forall k | 0 <= k < |pos| ::
         pos[k] < |names| && SplitCase(names[pos[k]]) != [] && vals[k] == LowerWords(SplitCase(names[pos[k]])[1..])
  }

  lemma EntriesCons(names: seq<string>, i: nat, vals: seq<seq<string>>, pos: seq<nat>)
    requires i < |names| && |SplitCase(names[i])| >= 2
    requires Entries(names, vals, pos)
    ensures Entries(names, [LowerWords(SplitCase(names[i])[1..])] + vals, [i] + pos)
  {
    var vs, ps := [LowerWords(SplitCase(names[i])[1..])] + vals, [i] + pos;
    forall k | 1 <= k < |ps|
      ensures ps[k] < |names| && SplitCase(names[ps[k]]) != [] && vs[k] == LowerWords(SplitCase(names[ps[k]])[1..])
    {
      assert ps[k] == pos[k - 1] && vs[k] == vals[k - 1];
    }
  }

  /**
   * The method identifiers keep the source's list order and its duplicates: entry `k` comes
   * from the `k`-th name with at least two words, which loses its first word and is lower-cased.
   */
  lemma {:induction false} MethodsInOrder(names: seq<string>, i: nat)
    requires i <= |names|
    requires Methods(names[i..]).Success?
    ensures |Methods(names[i..]).value| == |Survivors(names, i)|
    ensures forall k | 0 <= k < |Survivors(names, i)| ::
              Methods(names[i..]).value[k] == LowerWords(SplitCase(names[Survivors(names, i)[k]])[1..])
    decreases |names| - i
  {
    if i < |names| {
      var ws := SplitCase(names[i]);
      assert names[i..][0] == names[i] && names[i..][1..] == names[i + 1..];
      assert ws != [];
      var rest := Methods(names[i + 1..]);
      assert rest.Success?;
      MethodsInOrder(names, i + 1);
      var later := Survivors(names, i + 1);
      assert Entries(names, rest.value, later);
      if |ws| >= 2 {
        EntriesCons(names, i, rest.value, later);
        assert Methods(names[i..]).value == [LowerWords(ws[1..])] + rest.value;
        assert Survivors(names, i) == [i] + later;
      } else {
        assert Methods(names[i..]).value == rest.value;
        assert Survivors(names, i) == later;
      }
      assert Entries(names, Methods(names[i..]).value, Survivors(names, i));
    }
  }

  /** The same for a whole class's method names: entry `k` comes from the `k`-th name with two or more words. */
  lemma MethodsKeepOrder(names: seq<string>)
    requires Methods(names).Success?
    ensures |Methods(names).value| == |Survivors(names, 0)|
    ensures forall k | 0 <= k < |Survivors(names, 0)| ::
              Methods(names).value[k] == LowerWords(SplitCase(names[Survivors(names, 0)[k]])[1..])
  {
    assert names[0..] == names;
    MethodsInOrder(names, 0);
  }

  /** Every method identifier that survives is a non-empty list of non-empty lower-case words. */
  lemma MethodsLower(names: seq<string>)
    requires Methods(names).Success?
    ensures forall w | w in Methods(names).value :: w != [] && LowerCased(w)
  {
    forall w | w in Methods(names).value
      ensures w != [] && LowerCased(w)
    {
      var i :| 0 <= i < |names| && |SplitCase(names[i])| >= 2 && w == LowerWords(SplitCase(names[i])[1..]);
      LowerWordsOfSplit(names[i], 1);
    }
  }

  /** The method names fail exactly when one of them has no ASCII letter. */
  lemma MethodsFail(names: seq<string>)
    ensures Methods(names).Failure? <==> exists i | 0 <= i < |names| :: Letters(names[i]) == []
  {
    forall i | 0 <= i < |names|
      ensures SplitCase(names[i]) == [] <==> Letters(names[i]) == []
    {
      SplitCaseEmpty(names[i]);
    }
  }

  /** The post-processed field and method identifiers of one class (:164-174). */
  function ClassIdentifiers(fields: seq<string>, methods: seq<string>)
    : (r: Result<(seq<seq<string>>, seq<seq<string>>), string>)
    ensures r.Failure? <==> Methods(methods).Failure?
    ensures r.Success? ==> r.value.0 == Fields(fields) && r.value.1 == Methods(methods).value
  {
    match Methods(methods)
    case Failure(err) => Failure(err)
    case Success(ms) => Success((Fields(fields), ms))
  }
}
