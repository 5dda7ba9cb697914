/** The `PathMatcher` strategy the pattern condition delegates to, kept abstract:
    the condition only needs pattern matching, pattern combination and a
    per-lookup-path comparator. Also the sort that `List.sort` performs with
    such a comparator. */
module PathMatching {

  /** A `java.util.Comparator<String>`: negative, zero or positive. */
  type Comparator = (string, string) -> int

  /** `PathMatcher.match`, `PathMatcher.combine` and
      `PathMatcher.getPatternComparator`, as functions of their arguments. */
  datatype PathMatcher = PathMatcher(
    pathMatch: (string, string) -> bool,
    pathCombine: (string, string) -> string,
    patternComparator: string -> Comparator)

  function Sign(n: int): int {
    if n < 0 then -1 else if n > 0 then 1 else 0
  }

  /** The `Comparator` contract: the sign flips when the arguments are swapped,
      and "compares at most zero" is transitive. Together these make
      `cmp(a, b) <= 0` a total preorder. */
  ghost predicate IsComparator(cmp: Comparator) {
    && (forall a, b :: Sign(cmp(a, b)) == -Sign(cmp(b, a)))
    && (forall a, b, c :: cmp(a, b) <= 0 && cmp(b, c) <= 0 ==> cmp(a, c) <= 0)
  }

  lemma ComparatorFacts(cmp: Comparator, a: string, b: string)
    requires IsComparator(cmp)
    ensures cmp(a, a) == 0
    ensures cmp(a, b) <= 0 || cmp(b, a) <= 0
    ensures cmp(a, b) > 0 <==> cmp(b, a) < 0
    ensures cmp(a, b) == 0 <==> cmp(b, a) == 0
  {
    assert Sign(cmp(a, a)) == -Sign(cmp(a, a));
    assert Sign(cmp(a, b)) == -Sign(cmp(b, a));
  }

  /** Closest match first: no element compares above a later one. */
  ghost predicate Sorted(cmp: Comparator, s: seq<string>) {
    forall i, j :: 0 <= i < j < |s| ==> cmp(s[i], s[j]) <= 0
  }

  /** Puts `x` before the first element it does not compare above. */
  function Insert(cmp: Comparator, x: string, s: seq<string>): (r: seq<string>)
    ensures multiset(r) == multiset(s) + multiset{x}
    ensures forall y <- r :: y == x || y in s
  {
    if s == [] || cmp(x, s[0]) <= 0 then [x] + s
    else
      assert s == [s[0]] + s[1..];
      [s[0]] + Insert(cmp, x, s[1..])
  }

  /** `list.sort(cmp)` on the list `s`: each element is inserted into the sorted
      rest in front of the first element it does not compare above. */
  function Sort(cmp: Comparator, s: seq<string>): (r: seq<string>)
    ensures multiset(r) == multiset(s)
    ensures |r| == |s|
  {
    if s == [] then []
    else
      assert s == [s[0]] + s[1..];
      Insert(cmp, s[0], Sort(cmp, s[1..]))
  }

  lemma SortedCons(cmp: Comparator, h: string, t: seq<string>)
    requires Sorted(cmp, t)
    requires forall y <- t :: cmp(h, y) <= 0
    ensures Sorted(cmp, [h] + t)
  {
    var r := [h] + t;
    forall i, j | 0 <= i < j < |r|
      ensures cmp(r[i], r[j]) <= 0
    {
      assert r[j] == t[j - 1];
      if i > 0 {
        assert r[i] == t[i - 1];
      }
    }
  }

  /** An element that compares at most zero against the head of a sorted list
      can go in front of it. */
  lemma InsertFrontSorted(cmp: Comparator, x: string, s: seq<string>)
    requires IsComparator(cmp) && Sorted(cmp, s)
    requires s != [] && cmp(x, s[0]) <= 0
    ensures Sorted(cmp, [x] + s)
  {
    forall y <- s
      ensures cmp(x, y) <= 0
    {
      var j :| 0 <= j < |s| && s[j] == y;
      if j > 0 {
        assert cmp(s[0], s[j]) <= 0;
      }
    }
    SortedCons(cmp, x, s);
  }

  lemma TailSorted(cmp: Comparator, s: seq<string>)
    requires s != [] && Sorted(cmp, s)
    ensures Sorted(cmp, s[1..])
  {
    var tail := s[1..];
    forall i, j | 0 <= i < j < |tail|
      ensures cmp(tail[i], tail[j]) <= 0
    {
      assert tail[i] == s[i + 1] && tail[j] == s[j + 1];
    }
  }

  /** The head of a sorted list still leads after something it precedes is
      inserted into the rest. */
  lemma HeadLeadsInsert(cmp: Comparator, s: seq<string>, x: string)
    requires s != [] && Sorted(cmp, s) && cmp(s[0], x) <= 0
    ensures forall y <- Insert(cmp, x, s[1..]) :: cmp(s[0], y) <= 0
  {
    var tail := s[1..];
    forall y <- Insert(cmp, x, tail)
      ensures cmp(s[0], y) <= 0
    {
      if y != x {
        var j :| 0 <= j < |tail| && tail[j] == y;
        assert s[j + 1] == y;
      }
    }
  }

  lemma {:induction false} InsertSorted(cmp: Comparator, x: string, s: seq<string>)
    requires IsComparator(cmp) && Sorted(cmp, s)
    ensures Sorted(cmp, Insert(cmp, x, s))
  {
    if s == [] {
    } else if cmp(x, s[0]) <= 0 {
      InsertFrontSorted(cmp, x, s);
    } else {
      ComparatorFacts(cmp, x, s[0]);
      TailSorted(cmp, s);
      InsertSorted(cmp, x, s[1..]);
      HeadLeadsInsert(cmp, s, x);
      SortedCons(cmp, s[0], Insert(cmp, x, s[1..]));
    }
  }

  /** The sort orders its input and neither loses nor invents an element. */
  lemma {:induction false} SortSorted(cmp: Comparator, s: seq<string>)
    requires IsComparator(cmp)
    ensures Sorted(cmp, Sort(cmp, s))
    ensures multiset(Sort(cmp, s)) == multiset(s)
  {
    if s != [] {
      SortSorted(cmp, s[1..]);
      InsertSorted(cmp, s[0], Sort(cmp, s[1..]));
    }
  }

  /** The elements of `s` that tie with `z`, in their order in `s`. */
  function Ties(cmp: Comparator, z: string, s: seq<string>): seq<string> {
    if s == [] then []
    else (if cmp(s[0], z) == 0 then [s[0]] else []) + Ties(cmp, z, s[1..])
  }

  lemma TiesCons(cmp: Comparator, z: string, h: string, t: seq<string>)
    ensures Ties(cmp, z, [h] + t) == (if cmp(h, z) == 0 then [h] else []) + Ties(cmp, z, t)
  {
    assert ([h] + t)[1..] == t;
  }

  /** Two elements that tie with the same `z` compare at most zero. */
  lemma TiesWithSame(cmp: Comparator, x: string, z: string)
    requires IsComparator(cmp)
    ensures forall y :: cmp(x, z) == 0 && cmp(y, z) == 0 ==> cmp(x, y) <= 0
  {
    forall y | cmp(x, z) == 0 && cmp(y, z) == 0
      ensures cmp(x, y) <= 0
    {
      ComparatorFacts(cmp, y, z);
    }
  }

  lemma TiesUnfold(cmp: Comparator, z: string, t: seq<string>)
    requires t != []
    ensures Ties(cmp, z, t) == (if cmp(t[0], z) == 0 then [t[0]] else []) + Ties(cmp, z, t[1..])
  {
  }

  lemma SwapEmpty(a: seq<string>, b: seq<string>, c: seq<string>)
    requires a == [] || b == []
    ensures a + (b + c) == b + (a + c)
  {
  }

  /** One step of `InsertTies`: `x` passes the head of `t`, which cannot tie
      with `z` when `x` does. */
  lemma InsertTiesStep(cmp: Comparator, x: string, z: string, t: seq<string>)
    requires t != [] && cmp(x, t[0]) > 0
    requires cmp(x, z) == 0 && cmp(t[0], z) == 0 ==> cmp(x, t[0]) <= 0
    requires Ties(cmp, z, Insert(cmp, x, t[1..])) ==
               (if cmp(x, z) == 0 then [x] else []) + Ties(cmp, z, t[1..])
    ensures Ties(cmp, z, Insert(cmp, x, t)) ==
              (if cmp(x, z) == 0 then [x] else []) + Ties(cmp, z, t)
  {
    var rest := Insert(cmp, x, t[1..]);
    var tx: seq<string> := if cmp(x, z) == 0 then [x] else [];
    var th: seq<string> := if cmp(t[0], z) == 0 then [t[0]] else [];
    assert Insert(cmp, x, t) == [t[0]] + rest;
    TiesCons(cmp, z, t[0], rest);
    TiesUnfold(cmp, z, t);
    SwapEmpty(th, tx, Ties(cmp, z, t[1..]));
  }

  /** Insertion puts `x` ahead of every element that ties with it; it can only
      pass elements that `x` compares above, and none of those ties with
      anything `x` ties with. */
  lemma {:induction false} InsertTies(cmp: Comparator, x: string, z: string, t: seq<string>)
    requires forall y :: cmp(x, z) == 0 && cmp(y, z) == 0 ==> cmp(x, y) <= 0
    ensures Ties(cmp, z, Insert(cmp, x, t)) ==
              (if cmp(x, z) == 0 then [x] else []) + Ties(cmp, z, t)
  {
    if t == [] || cmp(x, t[0]) <= 0 {
      assert Insert(cmp, x, t) == [x] + t;
      TiesCons(cmp, z, x, t);
    } else {
      InsertTies(cmp, x, z, t[1..]);
      InsertTiesStep(cmp, x, z, t);
    }
  }

  /** The sort is stable: for every `z`, the elements tying with `z` come out
      in the order they went in. */
  lemma {:induction false} SortStable(cmp: Comparator, z: string, s: seq<string>)
    requires IsComparator(cmp)
    ensures Ties(cmp, z, Sort(cmp, s)) == Ties(cmp, z, s)
  {
    if s != [] {
      SortStable(cmp, z, s[1..]);
      TiesWithSame(cmp, s[0], z);
      InsertTies(cmp, s[0], z, Sort(cmp, s[1..]));
    }
  }

  /** Lists of fewer than two elements are left as they are, which is why the
      source may skip the sort for them. */
  lemma SortShort(cmp: Comparator, s: seq<string>)
    requires |s| <= 1
    ensures Sort(cmp, s) == s
  {
  }
}
