/** A `java.util.LinkedHashSet` seen as the sequence of its elements in
    first-insertion order. */
module LinkedSets {

  ghost predicate NoDuplicates<T>(s: seq<T>) {
    forall i, j :: 0 <= i < j < |s| ==> s[i] != s[j]
  }

  /** `set.add(x)`: appends `x` unless it is already present. */
  function Add<T(==)>(s: seq<T>, x: T): seq<T> {
    if x in s then s else s + [x]
  }

  /** Adding puts `x` in the set, adds nothing else and keeps the set free of
      duplicates. */
  lemma AddProperties<T>(s: seq<T>, x: T)
    ensures x in Add(s, x)
    ensures forall y :: y in Add(s, x) <==> y in s || y == x
    ensures NoDuplicates(s) ==> NoDuplicates(Add(s, x))
  {
  }

  /** Adding every element of `xs`, left to right, to the set `s`. */
  function AddAll<T(==)>(s: seq<T>, xs: seq<T>): seq<T>
    decreases |xs|
  {
    if xs == [] then s else Add(AddAll(s, xs[..|xs| - 1]), xs[|xs| - 1])
  }

  /** `new LinkedHashSet<>(xs)`: the elements of `xs` once each, in the order of
      their first occurrence. */
  function Dedup<T(==)>(xs: seq<T>): seq<T> {
    AddAll([], xs)
  }

  /** The position of the first occurrence of `x` in `xs`. */
  function FirstIndex<T(==)>(xs: seq<T>, x: T): (i: nat)
    requires x in xs
    ensures i < |xs| && xs[i] == x && x !in xs[..i]
  {
    if xs[0] == x then 0 else 1 + FirstIndex(xs[1..], x)
  }

  lemma FirstIndexUnique<T>(xs: seq<T>, x: T, i: nat)
    requires i < |xs| && xs[i] == x && x !in xs[..i]
    ensures FirstIndex(xs, x) == i
  {
  }

  /** Adding one more element at the end of the input adds it to the set. */
  lemma DedupSnoc<T>(xs: seq<T>, x: T)
    ensures Dedup(xs + [x]) == Add(Dedup(xs), x)
  {
    assert (xs + [x])[..|xs|] == xs;
  }

  /** The set built from `xs` holds each element of `xs` exactly once, nothing
      else, and lists them by first occurrence in `xs`. */
  lemma {:induction false} DedupProperties<T>(xs: seq<T>)
    ensures NoDuplicates(Dedup(xs))
    ensures forall y :: y in Dedup(xs) <==> y in xs
    ensures |Dedup(xs)| <= |xs|
    ensures forall i, j :: 0 <= i < j < |Dedup(xs)| ==>
              FirstIndex(xs, Dedup(xs)[i]) < FirstIndex(xs, Dedup(xs)[j])
  {
    if xs != [] {
      var n := |xs| - 1;
      var p, x := xs[..n], xs[n];
      assert xs == p + [x];
      DedupProperties(p);
      DedupSnoc(p, x);
      var d := Dedup(p);
      AddProperties(d, x);
      forall y | y in p
        ensures FirstIndex(xs, y) == FirstIndex(p, y)
      {
        var k := FirstIndex(p, y);
        assert xs[..k] == p[..k];
        FirstIndexUnique(xs, y, k);
      }
      if x !in d {
        assert x !in p;
        assert xs[..n] == p;
        FirstIndexUnique(xs, x, n);
        forall i | 0 <= i < |d|
          ensures FirstIndex(xs, d[i]) < n
        {
          assert d[i] in d;
        }
      }
    }
  }

  /** A sequence without duplicates is its own set. */
  lemma {:induction false} DedupOfDistinct<T>(xs: seq<T>)
    requires NoDuplicates(xs)
    ensures Dedup(xs) == xs
  {
    if xs != [] {
      var n := |xs| - 1;
      assert xs == xs[..n] + [xs[n]];
      DedupOfDistinct(xs[..n]);
      DedupSnoc(xs[..n], xs[n]);
      assert xs[n] !in xs[..n];
    }
  }
}
