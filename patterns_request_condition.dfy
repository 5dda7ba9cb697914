/** `PatternsRequestCondition`: the set of URL path patterns attached to one
    request mapping, read as a disjunction. It normalises the patterns it is
    built from, combines a type-level scope with a method-level one, finds the
    patterns (or pattern variants) that match a lookup path, and ranks two
    already-matched conditions against each other. */
module PatternsRequestCondition {
  import opened JavaStrings
  import opened LinkedSets
  import opened PathMatching

  datatype Option<T> = None | Some(value: T)

  /** The patterns of a condition. `EmptyPathPattern` is the shared singleton
      set {""} the source compares by identity; it is a different value from a
      built set that happens to hold only "". */
  datatype PatternSet = EmptyPathPattern | Built(elements: seq<string>)
  {
    /** The patterns in iteration order. */
    function Elements(): seq<string> {
      if EmptyPathPattern? then [""] else elements
    }
  }

  /** One condition. The URL path helper is not part of the model: operations
      take the lookup path it would have computed. */
  datatype Condition = Condition(
    patterns: PatternSet,
    pathMatcher: PathMatcher,
    useSuffixPatternMatch: bool,
    useTrailingSlashMatch: bool,
    fileExtensions: seq<string>)
  {
    /** What every condition the operations build satisfies: a built set holds
        each pattern once and every file extension starts with ".". */
    ghost predicate Valid() {
      && (patterns.Built? ==> NoDuplicates(patterns.elements))
      && forall e <- fileExtensions :: |e| > 0 && e[0] == '.'
    }

    /** `combine`: a sentinel side gives way to the other side (and `this` wins
        when both are sentinels); otherwise the patterns are all pairwise
        combinations, and everything else is copied from `this`. */
    method Combine(other: Condition) returns (r: Condition)
      ensures other.patterns.EmptyPathPattern? ==> r == this
      ensures !other.patterns.EmptyPathPattern? && this.patterns.EmptyPathPattern? ==> r == other
      ensures this.patterns.Built? && other.patterns.Built? ==>
                r == this.(patterns := Built(CombinedPatterns(this.pathMatcher,
                                                                this.patterns.elements,
                                                                other.patterns.elements)))
      ensures this.Valid() && other.Valid() ==> r.Valid()
    {
      if this.patterns.EmptyPathPattern? && other.patterns.EmptyPathPattern? {
        return this;
      } else if other.patterns.EmptyPathPattern? {
        return this;
      } else if this.patterns.EmptyPathPattern? {
        return other;
      }
      var m := this.pathMatcher;
      var xs, ys := this.patterns.elements, other.patterns.elements;
      var result: seq<string> := [];
      if |xs| > 0 && |ys| > 0 {
        var i := 0;
        while i < |xs|
          invariant 0 <= i <= |xs|
          invariant result == Dedup(Cross(m, xs[..i], ys))
        {
          var j := 0;
          CombineStep(m, xs, ys, i, 0);
          while j < |ys|
            invariant 0 <= j <= |ys|
            invariant result == Dedup(Cross(m, xs[..i], ys) + Row(m, xs[i], ys)[..j])
          {
            CombineStep(m, xs, ys, i, j + 1);
            result := Add(result, m.pathCombine(xs[i], ys[j]));
            j := j + 1;
          }
          CombineStep(m, xs, ys, i, |ys|);
          CrossSnoc(m, xs, ys, i);
          i := i + 1;
        }
        assert xs[..i] == xs;
      } else {
        CrossLength(m, xs, ys);
      }
      CombinedPatternsContents(m, xs, ys);
      r := this.(patterns := Built(result));
    }

    // -------------------------------------------------------------------------
    // Matching a lookup path

    /** The suffix checks of `getMatchingPattern`: none when suffix matching is
        off; one per configured extension when there are extensions and the
        lookup path has a "."; otherwise the ".*" variant, which only counts
        when the pattern has no ".". */
    function SuffixChecks(pattern: string, lookupPath: string): seq<Check> {
      if !useSuffixPatternMatch then []
      else if |fileExtensions| > 0 && ContainsDot(lookupPath) then
        ExtensionChecks(pathMatcher, pattern, fileExtensions, lookupPath)
      else
        [Check(pattern + ".*", !ContainsDot(pattern) && pathMatcher.pathMatch(pattern + ".*", lookupPath))]
    }

    /** The checks made for one pattern, in the documented order: direct match,
        suffix variants, plain pattern match, pattern with "/" appended. */
    function Checks(pattern: string, lookupPath: string): seq<Check> {
      [Check(pattern, pattern == lookupPath)]
      + SuffixChecks(pattern, lookupPath)
      + [Check(pattern, pathMatcher.pathMatch(pattern, lookupPath)),
         Check(pattern + "/", useTrailingSlashMatch && !EndsWithSlash(pattern)
                              && pathMatcher.pathMatch(pattern + "/", lookupPath))]
    }

    /** The matching variant of one pattern: the candidate of the first check
        that succeeds, or none. */
    function MatchingPattern(pattern: string, lookupPath: string): Option<string> {
      FirstSuccess(Checks(pattern, lookupPath))
    }

    /** `getMatchingPattern`, with its early returns and its loop over the
        file extensions. */
    method GetMatchingPattern(pattern: string, lookupPath: string) returns (r: Option<string>)
      ensures r == MatchingPattern(pattern, lookupPath)
    {
      var suffix := SuffixChecks(pattern, lookupPath);
      MatchingPatternCases(this, pattern, lookupPath);
      if pattern == lookupPath {
        return Some(pattern);
      }
      if useSuffixPatternMatch {
        if |fileExtensions| > 0 && ContainsDot(lookupPath) {
          var i := 0;
          while i < |fileExtensions|
            invariant 0 <= i <= |fileExtensions|
            invariant FirstSuccess(suffix) == FirstSuccess(suffix[i..])
          {
            var extension := fileExtensions[i];
            if pathMatcher.pathMatch(pattern + extension, lookupPath) {
              return Some(pattern + extension);
            }
            assert suffix[i..][1..] == suffix[i + 1..];
            i := i + 1;
          }
        } else {
          var hasSuffix := ContainsDot(pattern);
          if !hasSuffix && pathMatcher.pathMatch(pattern + ".*", lookupPath) {
            return Some(pattern + ".*");
          }
        }
      }
      if pathMatcher.pathMatch(pattern, lookupPath) {
        return Some(pattern);
      }
      if useTrailingSlashMatch {
        if !EndsWithSlash(pattern) && pathMatcher.pathMatch(pattern + "/", lookupPath) {
          return Some(pattern + "/");
        }
      }
      return None;
    }

    /** The matching variants of the patterns `ps`, in iteration order. */
    function MatchesInOrder(ps: seq<string>, lookupPath: string): seq<string>
      decreases |ps|
    {
      if ps == [] then []
      else
        var earlier := MatchesInOrder(ps[..|ps| - 1], lookupPath);
        match MatchingPattern(ps[|ps| - 1], lookupPath)
        case Some(found) => earlier + [found]
        case None => earlier
    }

    /** What `getMatchingPatterns` returns: the matching variants sorted by the
        matcher's comparator for the lookup path. */
    function SortedMatches(lookupPath: string): seq<string> {
      Sort(pathMatcher.patternComparator(lookupPath), MatchesInOrder(patterns.Elements(), lookupPath))
    }

    /** `getMatchingPatterns`: collects each pattern's matching variant, then
        sorts the list when it has more than one element. The result is empty
        exactly when no pattern matches, has at most one entry per pattern, is
        a permutation of the per-pattern matches and, for a comparator that
        keeps the `Comparator` contract, is sorted. */
    method GetMatchingPatterns(lookupPath: string) returns (matches: seq<string>)
      ensures matches == SortedMatches(lookupPath)
      ensures |matches| <= |patterns.Elements()|
      ensures matches == [] <==> forall p <- patterns.Elements() :: MatchingPattern(p, lookupPath).None?
      ensures multiset(matches) == multiset(MatchesInOrder(patterns.Elements(), lookupPath))
      ensures IsComparator(pathMatcher.patternComparator(lookupPath)) ==>
                Sorted(pathMatcher.patternComparator(lookupPath), matches)
    {
      var ps := patterns.Elements();
      matches := [];
      var i := 0;
      while i < |ps|
        invariant 0 <= i <= |ps|
        invariant matches == MatchesInOrder(ps[..i], lookupPath)
      {
        var found := GetMatchingPattern(ps[i], lookupPath);
        assert ps[..i + 1][..i] == ps[..i];
        if found.Some? {
          matches := matches + [found.value];
        }
        i := i + 1;
      }
      assert ps[..i] == ps;
      MatchesInOrderContents(this, ps, lookupPath);
      var cmp := pathMatcher.patternComparator(lookupPath);
      assert IsComparator(cmp) ==> Sorted(cmp, Sort(cmp, matches)) by {
        if IsComparator(cmp) {
          SortSorted(cmp, matches);
        }
      }
      if |matches| > 1 {
        matches := Sort(cmp, matches);
      } else {
        SortShort(cmp, matches);
      }
    }

    /** `getMatchingCondition`, given the lookup path the URL path helper would
        compute: none when no pattern matches, otherwise this condition with
        the sorted matches, as a linked set, for its patterns. */
    method GetMatchingCondition(lookupPath: string) returns (r: Option<Condition>)
      ensures r.None? <==> forall p <- patterns.Elements() :: MatchingPattern(p, lookupPath).None?
      ensures r.Some? ==> r.value == this.(patterns := Built(Dedup(SortedMatches(lookupPath))))
    {
      var matches := GetMatchingPatterns(lookupPath);
      if |matches| > 0 {
        r := Some(this.(patterns := Built(Dedup(matches))));
      } else {
        r := None;
      }
    }

    // -------------------------------------------------------------------------
    // Ranking two conditions

    /** `compareTo`: the first non-zero comparison of the two pattern lists
        taken pairwise; on a tie, the side with patterns left over ranks
        first (-1 for this side, 1 for the other). */
    method CompareTo(other: Condition, lookupPath: string) returns (r: int)
      ensures r == LexCompare(pathMatcher.patternComparator(lookupPath),
                              patterns.Elements(), other.patterns.Elements())
    {
      var cmp := pathMatcher.patternComparator(lookupPath);
      var xs, ys := patterns.Elements(), other.patterns.Elements();
      var i := 0;
      while i < |xs| && i < |ys|
        invariant 0 <= i <= |xs| && i <= |ys|
        invariant LexCompare(cmp, xs, ys) == LexCompare(cmp, xs[i..], ys[i..])
      {
        var result := cmp(xs[i], ys[i]);
        if result != 0 {
          return result;
        }
        assert xs[i..][1..] == xs[i + 1..] && ys[i..][1..] == ys[i + 1..];
        i := i + 1;
      }
      if i < |xs| {
        return -1;
      } else if i < |ys| {
        return 1;
      } else {
        return 0;
      }
    }
  }

  // ---------------------------------------------------------------------------
  // Construction

  /** `hasPattern`: some given pattern has text. */
  function HasPattern(ps: seq<string>): (r: bool)
    ensures r <==> exists i :: 0 <= i < |ps| && HasText(ps[i])
  {
    if ps == [] then false
    else
      assert forall i :: 1 <= i < |ps| ==> ps[i] == ps[1..][i - 1];
      HasText(ps[0]) || HasPattern(ps[1..])
  }

  /** The per-pattern rule of `initPatterns`: a non-empty pattern that does not
      start with "/" gets one in front. */
  function Prepend(p: string): (r: string)
    ensures |r| > 0 ==> r[0] == '/'
    ensures r == p || r == "/" + p
    ensures |r| == 0 <==> |p| == 0
    ensures StartsWithSlash(p) ==> r == p
  {
    if HasLength(p) && !StartsWithSlash(p) then "/" + p else p
  }

  function NormalizedPatterns(ps: seq<string>): seq<string> {
    seq(|ps|, i requires 0 <= i < |ps| => Prepend(ps[i]))
  }

  lemma NormalizedPatternsSnoc(ps: seq<string>, i: nat)
    requires i < |ps|
    ensures NormalizedPatterns(ps[..i + 1]) == NormalizedPatterns(ps[..i]) + [Prepend(ps[i])]
  {
    assert ps[..i + 1] == ps[..i] + [ps[i]];
  }

  /** The pattern set the constructors store for the given patterns. */
  function InitialPatterns(ps: seq<string>): PatternSet {
    if HasPattern(ps) then Built(Dedup(NormalizedPatterns(ps))) else EmptyPathPattern
  }

  /** `initPatterns`: the sentinel when no pattern has text, otherwise a
      linked set of the normalised patterns. */
  method InitPatterns(ps: seq<string>) returns (r: PatternSet)
    ensures r == InitialPatterns(ps)
    ensures r.EmptyPathPattern? <==> !exists i :: 0 <= i < |ps| && HasText(ps[i])
  {
    if !HasPattern(ps) {
      return EmptyPathPattern;
    }
    var result: seq<string> := [];
    var i := 0;
    while i < |ps|
      invariant 0 <= i <= |ps|
      invariant result == Dedup(NormalizedPatterns(ps[..i]))
    {
      var pattern := ps[i];
      if HasLength(pattern) && !StartsWithSlash(pattern) {
        pattern := "/" + pattern;
      }
      NormalizedPatternsSnoc(ps, i);
      DedupSnoc(NormalizedPatterns(ps[..i]), pattern);
      result := Add(result, pattern);
      i := i + 1;
    }
    assert ps[..i] == ps;
    return Built(result);
  }

  /** What construction guarantees about a built pattern set: no duplicates;
      every stored pattern is "" or starts with "/"; each given pattern is
      stored in its normalised form and nothing else is. */
  lemma InitialPatternsNormalized(ps: seq<string>)
    requires InitialPatterns(ps).Built?
    ensures NoDuplicates(InitialPatterns(ps).elements)
    ensures forall p <- InitialPatterns(ps).elements :: p == "" || p[0] == '/'
    ensures forall i :: 0 <= i < |ps| ==> Prepend(ps[i]) in InitialPatterns(ps).elements
    ensures forall p <- InitialPatterns(ps).elements :: exists i :: 0 <= i < |ps| && p == Prepend(ps[i])
  {
    InitialPatternsDistinct(ps);
    InitialPatternsOrigin(ps);
    InitialPatternsComplete(ps);
  }

  lemma InitialPatternsOrigin(ps: seq<string>)
    requires InitialPatterns(ps).Built?
    ensures forall p <- InitialPatterns(ps).elements ::
              (p == "" || p[0] == '/') && exists i :: 0 <= i < |ps| && p == Prepend(ps[i])
  {
    var n := NormalizedPatterns(ps);
    var d := Dedup(n);
    assert InitialPatterns(ps).elements == d;
    DedupProperties(n);
    forall p <- d
      ensures (p == "" || p[0] == '/') && exists i :: 0 <= i < |ps| && p == Prepend(ps[i])
    {
      assert p in n;
      var i :| 0 <= i < |n| && n[i] == p;
      assert p == Prepend(ps[i]);
    }
  }

  lemma InitialPatternsComplete(ps: seq<string>)
    requires InitialPatterns(ps).Built?
    ensures forall i :: 0 <= i < |ps| ==> Prepend(ps[i]) in InitialPatterns(ps).elements
  {
    var n := NormalizedPatterns(ps);
    var d := Dedup(n);
    assert InitialPatterns(ps).elements == d;
    DedupProperties(n);
    forall i | 0 <= i < |ps|
      ensures Prepend(ps[i]) in d
    {
      assert n[i] in n;
    }
  }

  /** The stored order is the order in which the normalised patterns first
      occur, as in a `LinkedHashSet`. */
  lemma InitialPatternsOrder(ps: seq<string>)
    requires InitialPatterns(ps).Built?
    ensures var r := InitialPatterns(ps).elements;
      forall i, j :: 0 <= i < j < |r| ==>
        r[i] in NormalizedPatterns(ps) && r[j] in NormalizedPatterns(ps) &&
        FirstIndex(NormalizedPatterns(ps), r[i]) < FirstIndex(NormalizedPatterns(ps), r[j])
  {
    var n := NormalizedPatterns(ps);
    var d := Dedup(n);
    assert InitialPatterns(ps).elements == d;
    DedupProperties(n);
    forall i, j | 0 <= i < j < |d|
      ensures d[i] in n && d[j] in n && FirstIndex(n, d[i]) < FirstIndex(n, d[j])
    {
      assert d[i] in d && d[j] in d;
    }
  }

  /** A built initial pattern set holds each pattern once. */
  lemma InitialPatternsDistinct(ps: seq<string>)
    ensures InitialPatterns(ps).Built? ==> NoDuplicates(InitialPatterns(ps).elements)
  {
    DedupProperties(NormalizedPatterns(ps));
  }

  /** The sentinel stands for "no pattern has text" and nothing else: a mapping
      given only "" or blanks gets it, while one given "" next to a real pattern
      stores "" as an ordinary element. */
  lemma SentinelExactlyWhenNoText(ps: seq<string>)
    ensures InitialPatterns(ps) == EmptyPathPattern <==> forall p <- ps :: !HasText(p)
    ensures "" in ps && InitialPatterns(ps).Built? ==> "" in InitialPatterns(ps).elements
  {
    if "" in ps && InitialPatterns(ps).Built? {
      InitialPatternsNormalized(ps);
      var i :| 0 <= i < |ps| && ps[i] == "";
      assert Prepend(ps[i]) == "";
    }
  }

  /** `stored` is the configured extension `given` as the constructor keeps
      it: it starts with ".", and it is `given` itself, with a "." put in
      front only when `given` did not start with one. */
  ghost predicate DottedExtension(given: string, stored: string) {
    && |stored| > 0 && stored[0] == '.'
    && (stored == given || stored == "." + given)
    && (|given| > 0 && given[0] == '.' ==> stored == given)
  }

  /** The main constructor. The path matcher is given (the source defaults a
      null one to an `AntPathMatcher`, which is not part of this model);
      every file extension gets a leading "." and keeps its place. */
  method NewCondition(patterns: seq<string>, pathMatcher: PathMatcher,
                      useSuffixPatternMatch: bool, useTrailingSlashMatch: bool,
                      fileExtensions: seq<string>) returns (c: Condition)
    requires forall e <- fileExtensions :: |e| > 0
    ensures c.patterns == InitialPatterns(patterns)
    ensures c.pathMatcher == pathMatcher
    ensures c.useSuffixPatternMatch == useSuffixPatternMatch
    ensures c.useTrailingSlashMatch == useTrailingSlashMatch
    ensures |c.fileExtensions| == |fileExtensions|
    ensures forall i :: 0 <= i < |fileExtensions| ==>
              DottedExtension(fileExtensions[i], c.fileExtensions[i])
    ensures c.Valid()
  {
    var ps := InitPatterns(patterns);
    var exts: seq<string> := [];
    var i := 0;
    while i < |fileExtensions|
      invariant 0 <= i <= |fileExtensions|
      invariant |exts| == i
      invariant forall k :: 0 <= k < i ==> DottedExtension(fileExtensions[k], exts[k])
    {
      var fileExtension := fileExtensions[i];
      if fileExtension[0] != '.' {
        fileExtension := "." + fileExtension;
      }
      exts := exts + [fileExtension];
      i := i + 1;
    }
    InitialPatternsDistinct(patterns);
    c := Condition(ps, pathMatcher, useSuffixPatternMatch, useTrailingSlashMatch, exts);
  }

  /** `PatternsRequestCondition(String...)`: suffix and trailing-slash
      matching on, no file extensions. */
  method NewWithPatterns(patterns: seq<string>, pathMatcher: PathMatcher) returns (c: Condition)
    ensures c.patterns == InitialPatterns(patterns) && c.pathMatcher == pathMatcher
    ensures c.useSuffixPatternMatch && c.useTrailingSlashMatch && c.fileExtensions == []
    ensures c.Valid()
  {
    c := NewCondition(patterns, pathMatcher, true, true, []);
  }

  /** The 5.2.4 constructor: suffix matching off, trailing-slash matching as
      given, no file extensions. */
  method NewWithTrailingSlashMatch(patterns: seq<string>, pathMatcher: PathMatcher,
                                   useTrailingSlashMatch: bool) returns (c: Condition)
    ensures c.patterns == InitialPatterns(patterns) && c.pathMatcher == pathMatcher
    ensures !c.useSuffixPatternMatch && c.useTrailingSlashMatch == useTrailingSlashMatch
    ensures c.fileExtensions == []
    ensures c.Valid()
  {
    c := NewCondition(patterns, pathMatcher, false, useTrailingSlashMatch, []);
  }

  /** The deprecated five-argument constructor: no file extensions. */
  method NewWithMatchFlags(patterns: seq<string>, pathMatcher: PathMatcher,
                           useSuffixPatternMatch: bool, useTrailingSlashMatch: bool) returns (c: Condition)
    ensures c.patterns == InitialPatterns(patterns) && c.pathMatcher == pathMatcher
    ensures c.useSuffixPatternMatch == useSuffixPatternMatch
    ensures c.useTrailingSlashMatch == useTrailingSlashMatch
    ensures c.fileExtensions == []
    ensures c.Valid()
  {
    c := NewCondition(patterns, pathMatcher, useSuffixPatternMatch, useTrailingSlashMatch, []);
  }

  // ---------------------------------------------------------------------------
  // Combining a type-level and a method-level condition

  /** The patterns `pathMatcher.combine(x, y)` for one `x` and every `y`, in order. */
  function Row(m: PathMatcher, x: string, ys: seq<string>): seq<string> {
    seq(|ys|, j requires 0 <= j < |ys| => m.pathCombine(x, ys[j]))
  }

  /** The nested loop's sequence of combined patterns: outer loop over `xs`,
      inner loop over `ys`. */
  function Cross(m: PathMatcher, xs: seq<string>, ys: seq<string>): seq<string>
    decreases |xs|
  {
    if xs == [] then [] else Cross(m, xs[..|xs| - 1], ys) + Row(m, xs[|xs| - 1], ys)
  }

  lemma {:induction false} CrossLength(m: PathMatcher, xs: seq<string>, ys: seq<string>)
    ensures |Cross(m, xs, ys)| == |xs| * |ys|
    decreases |xs|
  {
    if xs != [] {
      CrossLength(m, xs[..|xs| - 1], ys);
    }
  }

  lemma CrossSnoc(m: PathMatcher, xs: seq<string>, ys: seq<string>, i: nat)
    requires i < |xs|
    ensures Cross(m, xs[..i + 1], ys) == Cross(m, xs[..i], ys) + Row(m, xs[i], ys)
  {
    assert xs[..i + 1][..i] == xs[..i];
  }

  /** One step of the inner loop of `combine`: the set after `j` inner steps
      is the set built from the first `j` combinations of row `i`. */
  lemma CombineStep(m: PathMatcher, xs: seq<string>, ys: seq<string>, i: nat, j: nat)
    requires i < |xs| && j <= |ys|
    ensures j == 0 ==> Cross(m, xs[..i], ys) + Row(m, xs[i], ys)[..j] == Cross(m, xs[..i], ys)
    ensures j == |ys| ==> Row(m, xs[i], ys)[..j] == Row(m, xs[i], ys)
    ensures 0 < j ==> Dedup(Cross(m, xs[..i], ys) + Row(m, xs[i], ys)[..j])
                      == Add(Dedup(Cross(m, xs[..i], ys) + Row(m, xs[i], ys)[..j - 1]),
                             m.pathCombine(xs[i], ys[j - 1]))
  {
    var pre := Cross(m, xs[..i], ys);
    var row := Row(m, xs[i], ys);
    if j == 0 {
      assert pre + row[..0] == pre;
    }
    if 0 < j {
      assert pre + row[..j] == (pre + row[..j - 1]) + [m.pathCombine(xs[i], ys[j - 1])];
      DedupSnoc(pre + row[..j - 1], m.pathCombine(xs[i], ys[j - 1]));
    }
  }

  lemma {:induction false} CrossContents(m: PathMatcher, xs: seq<string>, ys: seq<string>)
    ensures |Cross(m, xs, ys)| == |xs| * |ys|
    ensures forall z :: z in Cross(m, xs, ys) <==>
              exists x, y :: x in xs && y in ys && z == m.pathCombine(x, y)
    decreases |xs|
  {
    CrossLength(m, xs, ys);
    if xs != [] {
      var n := |xs| - 1;
      CrossContents(m, xs[..n], ys);
      assert xs == xs[..n] + [xs[n]];
      forall z | z in Cross(m, xs, ys)
        ensures exists x, y :: x in xs && y in ys && z == m.pathCombine(x, y)
      {
        if z !in Cross(m, xs[..n], ys) {
          var j :| 0 <= j < |ys| && Row(m, xs[n], ys)[j] == z;
          assert xs[n] in xs && ys[j] in ys;
        }
      }
      forall z | exists x, y :: x in xs && y in ys && z == m.pathCombine(x, y)
        ensures z in Cross(m, xs, ys)
      {
        var x, y :| x in xs && y in ys && z == m.pathCombine(x, y);
        if x !in xs[..n] {
          var j :| 0 <= j < |ys| && ys[j] == y;
          assert Row(m, xs[n], ys)[j] == z;
        }
      }
    }
  }

  /** The pattern set `combine` builds when neither side is the sentinel. */
  function CombinedPatterns(m: PathMatcher, xs: seq<string>, ys: seq<string>): seq<string> {
    Dedup(Cross(m, xs, ys))
  }

  /** Every combination of a pattern of each side appears once, nothing else
      does, so there are at most |xs| * |ys| of them. */
  lemma CombinedPatternsContents(m: PathMatcher, xs: seq<string>, ys: seq<string>)
    ensures NoDuplicates(CombinedPatterns(m, xs, ys))
    ensures forall z :: z in CombinedPatterns(m, xs, ys) <==>
              exists x, y :: x in xs && y in ys && z == m.pathCombine(x, y)
    ensures |CombinedPatterns(m, xs, ys)| <= |xs| * |ys|
  {
    CrossContents(m, xs, ys);
    DedupProperties(Cross(m, xs, ys));
  }


  // ---------------------------------------------------------------------------
  // The checks of getMatchingPattern

  /** One candidate variant of a pattern and whether its check succeeds. */
  datatype Check = Check(candidate: string, succeeds: bool)

  /** The candidate of the first successful check. */
  function FirstSuccess(checks: seq<Check>): Option<string> {
    if checks == [] then None
    else if checks[0].succeeds then Some(checks[0].candidate)
    else FirstSuccess(checks[1..])
  }

  function ExtensionChecks(m: PathMatcher, pattern: string, exts: seq<string>, lookupPath: string): seq<Check> {
    seq(|exts|, i requires 0 <= i < |exts| =>
      Check(pattern + exts[i], m.pathMatch(pattern + exts[i], lookupPath)))
  }

  /** The checks run in their documented order and the first one that
      succeeds decides: the lookup path itself, then a suffix variant, then
      the plain pattern, then the trailing-slash variant. */
  lemma MatchingPatternCases(c: Condition, pattern: string, lookupPath: string)
    ensures c.MatchingPattern(pattern, lookupPath) ==
      if pattern == lookupPath then Some(pattern)
      else if FirstSuccess(c.SuffixChecks(pattern, lookupPath)).Some? then
        FirstSuccess(c.SuffixChecks(pattern, lookupPath))
      else if c.pathMatcher.pathMatch(pattern, lookupPath) then Some(pattern)
      else if c.useTrailingSlashMatch && !EndsWithSlash(pattern)
              && c.pathMatcher.pathMatch(pattern + "/", lookupPath) then Some(pattern + "/")
      else None
  {
    var suffix := c.SuffixChecks(pattern, lookupPath);
    var rest := [Check(pattern, c.pathMatcher.pathMatch(pattern, lookupPath)),
                 Check(pattern + "/", c.useTrailingSlashMatch && !EndsWithSlash(pattern)
                                      && c.pathMatcher.pathMatch(pattern + "/", lookupPath))];
    assert c.Checks(pattern, lookupPath) == [Check(pattern, pattern == lookupPath)] + (suffix + rest);
    FirstSuccessAppend([Check(pattern, pattern == lookupPath)], suffix + rest);
    FirstSuccessAppend(suffix, rest);
    FirstSuccessAppend([rest[0]], [rest[1]]);
    assert rest == [rest[0]] + [rest[1]];
  }

  lemma {:induction false} FirstSuccessAppend(a: seq<Check>, b: seq<Check>)
    ensures FirstSuccess(a + b) == if FirstSuccess(a).Some? then FirstSuccess(a) else FirstSuccess(b)
  {
    if a == [] {
      assert a + b == b;
    } else {
      assert (a + b)[0] == a[0];
      assert (a + b)[1..] == a[1..] + b;
      FirstSuccessAppend(a[1..], b);
    }
  }

  /** `FirstSuccess` picks the candidate of a successful check with no
      successful check before it, and finds nothing only when no check
      succeeds. */
  lemma {:induction false} FirstSuccessIsFirst(checks: seq<Check>)
    ensures FirstSuccess(checks).None? <==> forall i :: 0 <= i < |checks| ==> !checks[i].succeeds
    ensures FirstSuccess(checks).Some? ==>
              exists k :: 0 <= k < |checks| && checks[k].succeeds
                && checks[k].candidate == FirstSuccess(checks).value
                && forall i :: 0 <= i < k ==> !checks[i].succeeds
  {
    if checks != [] && !checks[0].succeeds {
      FirstSuccessIsFirst(checks[1..]);
      assert forall i :: 1 <= i < |checks| ==> checks[i] == checks[1..][i - 1];
      if FirstSuccess(checks).Some? {
        var k :| 0 <= k < |checks[1..]| && checks[1..][k].succeeds
                 && checks[1..][k].candidate == FirstSuccess(checks).value
                 && forall i :: 0 <= i < k ==> !checks[1..][i].succeeds;
        assert checks[k + 1] == checks[1..][k];
        assert forall i :: 1 <= i < k + 1 ==> !checks[i].succeeds;
      }
    }
  }

  lemma {:induction false} MatchesInOrderContents(c: Condition, ps: seq<string>, lookupPath: string)
    ensures |c.MatchesInOrder(ps, lookupPath)| <= |ps|
    ensures c.MatchesInOrder(ps, lookupPath) == [] <==>
              forall p <- ps :: c.MatchingPattern(p, lookupPath).None?
    ensures forall x <- c.MatchesInOrder(ps, lookupPath) ::
              exists p <- ps :: c.MatchingPattern(p, lookupPath) == Some(x)
    ensures forall p <- ps :: c.MatchingPattern(p, lookupPath).Some? ==>
              c.MatchingPattern(p, lookupPath).value in c.MatchesInOrder(ps, lookupPath)
    decreases |ps|
  {
    if ps != [] {
      var n := |ps| - 1;
      MatchesInOrderContents(c, ps[..n], lookupPath);
      assert ps == ps[..n] + [ps[n]];
    }
  }

  // ---------------------------------------------------------------------------
  // The order compareTo induces

  /** Lexicographic comparison of two pattern lists where, when one list is a
      prefix of the other up to ties, the longer one ranks first. */
  function LexCompare(cmp: Comparator, xs: seq<string>, ys: seq<string>): int {
    if xs != [] && ys != [] then
      var result := cmp(xs[0], ys[0]);
      if result != 0 then result else LexCompare(cmp, xs[1..], ys[1..])
    else if xs != [] then -1
    else if ys != [] then 1
    else 0
  }

  /** `compareTo` answers with the comparator's result on the first pair that
      does not tie. */
  lemma {:induction false} LexCompareFirstDifference(cmp: Comparator, xs: seq<string>, ys: seq<string>, k: nat)
    requires k < |xs| && k < |ys|
    requires forall i :: 0 <= i < k ==> cmp(xs[i], ys[i]) == 0
    requires cmp(xs[k], ys[k]) != 0
    ensures LexCompare(cmp, xs, ys) == cmp(xs[k], ys[k])
  {
    if k > 0 {
      LexCompareFirstDifference(cmp, xs[1..], ys[1..], k - 1);
    }
  }

  /** When every compared pair ties, the side with more patterns is the closer
      match (-1 when it is the first side), and equal lengths give 0. */
  lemma {:induction false} LexCompareAllTies(cmp: Comparator, xs: seq<string>, ys: seq<string>)
    requires forall i :: 0 <= i < |xs| && i < |ys| ==> cmp(xs[i], ys[i]) == 0
    ensures LexCompare(cmp, xs, ys) == if |xs| > |ys| then -1 else if |xs| < |ys| then 1 else 0
  {
    if xs != [] && ys != [] {
      assert cmp(xs[0], ys[0]) == 0;
      LexCompareAllTies(cmp, xs[1..], ys[1..]);
    }
  }

  /** Swapping the two conditions flips the sign of `compareTo`. */
  lemma {:induction false} LexCompareAntisymmetric(cmp: Comparator, xs: seq<string>, ys: seq<string>)
    requires IsComparator(cmp)
    ensures Sign(LexCompare(cmp, xs, ys)) == -Sign(LexCompare(cmp, ys, xs))
  {
    if xs != [] && ys != [] {
      ComparatorFacts(cmp, xs[0], ys[0]);
      LexCompareAntisymmetric(cmp, xs[1..], ys[1..]);
    }
  }

  /** "Ranks no later than" under `compareTo` is transitive, so with
      `LexCompareAntisymmetric` it keeps the `Comparator` contract on
      pattern lists whenever the pattern comparator keeps it. */
  lemma {:induction false} LexCompareTransitive(cmp: Comparator, xs: seq<string>, ys: seq<string>, zs: seq<string>)
    requires IsComparator(cmp)
    requires LexCompare(cmp, xs, ys) <= 0 && LexCompare(cmp, ys, zs) <= 0
    ensures LexCompare(cmp, xs, zs) <= 0
  {
    if xs != [] && ys != [] && zs != [] {
      var a, b := cmp(xs[0], ys[0]), cmp(ys[0], zs[0]);
      ComparatorChain(cmp, xs[0], ys[0], zs[0]);
      if a == 0 && b == 0 {
        LexCompareTransitive(cmp, xs[1..], ys[1..], zs[1..]);
      }
    }
  }

  lemma ComparatorChain(cmp: Comparator, a: string, b: string, c: string)
    requires IsComparator(cmp)
    requires cmp(a, b) <= 0 && cmp(b, c) <= 0
    ensures cmp(a, b) < 0 || cmp(b, c) < 0 ==> cmp(a, c) < 0
    ensures cmp(a, b) == 0 && cmp(b, c) == 0 ==> cmp(a, c) == 0
  {
    ComparatorFacts(cmp, a, b);
    ComparatorFacts(cmp, b, c);
    ComparatorFacts(cmp, a, c);
    if cmp(a, c) == 0 {
      assert cmp(c, a) <= 0;
      assert cmp(b, a) <= 0 && cmp(c, b) <= 0;
    }
  }

  // ---------------------------------------------------------------------------
  // What getMatchingPattern promises

  /** A pattern equal to the lookup path is returned as it is; whatever is
      returned either is the lookup path or matches it; a plain match is never
      lost; and the result is one of the documented forms: the pattern, the
      pattern with a configured extension (suffix matching on, "." in the
      lookup path), the pattern with ".*" (suffix matching on, no "." in the
      pattern, and no extensions or no "." in the lookup path), or the pattern
      with "/" (trailing-slash matching on, pattern not ending in "/"). */
  lemma MatchingPatternShape(c: Condition, pattern: string, lookupPath: string)
    ensures pattern == lookupPath ==> c.MatchingPattern(pattern, lookupPath) == Some(pattern)
    ensures c.MatchingPattern(pattern, lookupPath).Some? ==>
              var found := c.MatchingPattern(pattern, lookupPath).value;
              found == lookupPath || c.pathMatcher.pathMatch(found, lookupPath)
    ensures c.pathMatcher.pathMatch(pattern, lookupPath) ==> c.MatchingPattern(pattern, lookupPath).Some?
    ensures var r := c.MatchingPattern(pattern, lookupPath);
      || r == None
      || r == Some(pattern)
      || (c.useSuffixPatternMatch && ContainsDot(lookupPath)
          && exists e <- c.fileExtensions :: r == Some(pattern + e))
      || (c.useSuffixPatternMatch && !ContainsDot(pattern)
          && (c.fileExtensions == [] || !ContainsDot(lookupPath)) && r == Some(pattern + ".*"))
      || (c.useTrailingSlashMatch && !EndsWithSlash(pattern) && r == Some(pattern + "/"))
  {
    var checks := c.Checks(pattern, lookupPath);
    var suffix := c.SuffixChecks(pattern, lookupPath);
    assert checks[0] == Check(pattern, pattern == lookupPath);
    assert checks[|suffix| + 1] == Check(pattern, c.pathMatcher.pathMatch(pattern, lookupPath));
    FirstSuccessIsFirst(checks);
    if c.MatchingPattern(pattern, lookupPath).Some? {
      var k :| 0 <= k < |checks| && checks[k].succeeds
               && checks[k].candidate == c.MatchingPattern(pattern, lookupPath).value
               && forall i :: 0 <= i < k ==> !checks[i].succeeds;
      if 1 <= k <= |suffix| {
        assert checks[k] == suffix[k - 1];
        if c.useSuffixPatternMatch && |c.fileExtensions| > 0 && ContainsDot(lookupPath) {
          assert c.fileExtensions[k - 1] in c.fileExtensions;
        }
      } else if k == |suffix| + 2 {
        assert checks[k] == Check(pattern + "/", c.useTrailingSlashMatch && !EndsWithSlash(pattern)
                                                 && c.pathMatcher.pathMatch(pattern + "/", lookupPath));
      }
    }
  }

  /** When several configured extensions match, the first of them in the
      configured order is the one reported. */
  lemma MatchingPatternPrecedence(c: Condition, pattern: string, lookupPath: string)
    ensures c.useSuffixPatternMatch && |c.fileExtensions| > 0 && ContainsDot(lookupPath) ==>
      forall k :: 0 <= k < |c.fileExtensions|
        && c.pathMatcher.pathMatch(pattern + c.fileExtensions[k], lookupPath)
        && (forall i :: 0 <= i < k ==> !c.pathMatcher.pathMatch(pattern + c.fileExtensions[i], lookupPath))
        ==> FirstSuccess(c.SuffixChecks(pattern, lookupPath)) == Some(pattern + c.fileExtensions[k])
  {
    if c.useSuffixPatternMatch && |c.fileExtensions| > 0 && ContainsDot(lookupPath) {
      var suffix := c.SuffixChecks(pattern, lookupPath);
      assert |suffix| == |c.fileExtensions|;
      assert forall i :: 0 <= i < |suffix| ==>
        suffix[i] == Check(pattern + c.fileExtensions[i],
                           c.pathMatcher.pathMatch(pattern + c.fileExtensions[i], lookupPath));
      forall k | 0 <= k < |c.fileExtensions|
        && c.pathMatcher.pathMatch(pattern + c.fileExtensions[k], lookupPath)
        && (forall i :: 0 <= i < k ==> !c.pathMatcher.pathMatch(pattern + c.fileExtensions[i], lookupPath))
        ensures FirstSuccess(suffix) == Some(pattern + c.fileExtensions[k])
      {
        FirstSuccessIsFirst(suffix);
        var j :| 0 <= j < |suffix| && suffix[j].succeeds
                 && suffix[j].candidate == FirstSuccess(suffix).value
                 && forall i :: 0 <= i < j ==> !suffix[i].succeeds;
      }
    }
  }

  // ---------------------------------------------------------------------------
  // What getMatchingCondition promises

  lemma DedupSorted(cmp: Comparator, s: seq<string>)
    requires Sorted(cmp, s)
    ensures Sorted(cmp, Dedup(s))
  {
    DedupProperties(s);
    var d := Dedup(s);
    forall i, j | 0 <= i < j < |d|
      ensures cmp(d[i], d[j]) <= 0
    {
      assert d[i] in s && d[j] in s;
      var a, b := FirstIndex(s, d[i]), FirstIndex(s, d[j]);
      assert a < b;
    }
  }

  /** Sorting neither adds nor drops a match. */
  lemma SortedMatchesMembers(c: Condition, lookupPath: string)
    ensures forall x :: x in c.SortedMatches(lookupPath) <==>
              x in c.MatchesInOrder(c.patterns.Elements(), lookupPath)
  {
    var m := c.MatchesInOrder(c.patterns.Elements(), lookupPath);
    var s := c.SortedMatches(lookupPath);
    assert multiset(s) == multiset(m);
    forall x
      ensures x in s <==> x in m
    {
      assert x in s <==> x in multiset(s);
      assert x in m <==> x in multiset(m);
    }
  }

  /** The condition `getMatchingCondition` returns holds only matching
      variants of this condition's patterns, each once, closest match first;
      it keeps everything else, so it stays valid; and it misses no pattern's
      match. */
  lemma MatchingConditionProperties(c: Condition, lookupPath: string)
    requires IsComparator(c.pathMatcher.patternComparator(lookupPath))
    ensures var r := Dedup(c.SortedMatches(lookupPath));
      && NoDuplicates(r)
      && Sorted(c.pathMatcher.patternComparator(lookupPath), r)
      && (forall x <- r :: exists p <- c.patterns.Elements() :: c.MatchingPattern(p, lookupPath) == Some(x))
      && (forall p <- c.patterns.Elements() :: c.MatchingPattern(p, lookupPath).Some? ==>
            c.MatchingPattern(p, lookupPath).value in r)
      && (c.Valid() ==> c.(patterns := Built(r)).Valid())
  {
    var cmp := c.pathMatcher.patternComparator(lookupPath);
    var m := c.MatchesInOrder(c.patterns.Elements(), lookupPath);
    var s := c.SortedMatches(lookupPath);
    MatchesInOrderContents(c, c.patterns.Elements(), lookupPath);
    SortedMatchesMembers(c, lookupPath);
    SortSorted(cmp, m);
    DedupSorted(cmp, s);
    DedupProperties(s);
  }

  // ---------------------------------------------------------------------------
  // Scenarios from the controller tests

  /** A mapping declared with both "/" and "" stores both as ordinary
      patterns (not the sentinel), and requests for "/" and for "" both find
      a match, whatever the path matcher and the flags. */
  lemma ExplicitAndEmptyInitial()
    ensures InitialPatterns(["/", ""]) == Built(["/", ""])
  {
    var given := ["/", ""];
    assert HasText(given[0]) by {
      assert !IsWhitespace(given[0][0]);
    }
    assert HasPattern(given);
    assert NormalizedPatterns(given) == given by {
      assert Prepend(given[0]) == given[0] && Prepend(given[1]) == given[1];
    }
    DedupOfDistinct(given);
  }

  lemma ExplicitAndEmptyPaths(m: PathMatcher, suffix: bool, trailing: bool, exts: seq<string>)
    ensures InitialPatterns(["/", ""]) == Built(["/", ""])
    ensures var c := Condition(InitialPatterns(["/", ""]), m, suffix, trailing, exts);
      c.SortedMatches("/") != [] && c.SortedMatches("") != []
  {
    ExplicitAndEmptyInitial();
    var given := ["/", ""];
    var c := Condition(Built(given), m, suffix, trailing, exts);
    MatchingPatternShape(c, "/", "/");
    MatchingPatternShape(c, "", "");
    MatchesInOrderContents(c, given, "/");
    MatchesInOrderContents(c, given, "");
  }

  /** The constructors' documentation says that with no patterns the condition
      matches every request; the code instead checks "" and its variants
      "", ".*" and "/" like any pattern. Under a matcher that matches only
      equal strings none of them matches "/foo", and neither does any of them
      under an Ant-style matcher, since each starts differently from "/foo"
      ("" is empty, ".*" does not start with "/", "/" has no second segment). */
  lemma SentinelMatchesLikeEmptyPattern()
    ensures var literal := PathMatcher((p: string, q: string) => p == q,
                                       (p: string, q: string) => p + q,
                                       (path: string) => (p: string, q: string) => 0);
      Condition(EmptyPathPattern, literal, true, true, []).SortedMatches("/foo") == []
  {
    var literal := PathMatcher((p: string, q: string) => p == q,
                               (p: string, q: string) => p + q,
                               (path: string) => (p: string, q: string) => 0);
    var c := Condition(EmptyPathPattern, literal, true, true, []);
    assert "/foo" != ".*" && "/foo" != "" && "/foo" != "/";
    FirstSuccessIsFirst(c.Checks("", "/foo"));
    assert c.MatchingPattern("", "/foo") == None;
    MatchesInOrderContents(c, [""], "/foo");
  }

  /** A mapping to "/{templatePath}/" serves "/foo/": the pattern is stored as
      given, its trailing-slash variant is never tried because it already ends
      in "/", and when the matcher matches the pattern itself (and not its
      ".*" suffix variant, which no Ant-style matcher does here) that pattern
      is the one match. */
  lemma TrailingSlashInitial()
    ensures InitialPatterns(["/{templatePath}/"]) == Built(["/{templatePath}/"])
  {
    var p := "/{templatePath}/";
    assert HasText(p) by {
      assert !IsWhitespace(p[0]);
    }
    assert HasPattern([p]);
    assert NormalizedPatterns([p]) == [p] by {
      assert Prepend(p) == p;
    }
    DedupOfDistinct([p]);
  }

  lemma TrailingSlashPattern(m: PathMatcher)
    requires m.pathMatch("/{templatePath}/", "/foo/")
    requires !m.pathMatch("/{templatePath}/.*", "/foo/")
    ensures InitialPatterns(["/{templatePath}/"]) == Built(["/{templatePath}/"])
    ensures Condition(Built(["/{templatePath}/"]), m, true, true, []).SortedMatches("/foo/")
              == ["/{templatePath}/"]
  {
    var p := "/{templatePath}/";
    TrailingSlashInitial();
    var c := Condition(Built([p]), m, true, true, []);
    assert p != "/foo/" by {
      assert p[1] != "/foo/"[1];
    }
    MatchingPatternCases(c, p, "/foo/");
    assert p + ".*" == "/{templatePath}/.*";
    assert c.SuffixChecks(p, "/foo/") == [Check(p + ".*", false)];
    assert c.MatchingPattern(p, "/foo/") == Some(p);
    assert [p][..0] == [];
    SortShort(m.patternComparator("/foo/"), [p]);
  }

  /** When the comparator ranks the lookup path itself ahead of every other
      pattern (as the Ant-style comparator does), a mapping that has the
      lookup path among its patterns ranks ahead of a matching mapping that
      does not: the first of its sorted matches is the lookup path itself. */
  lemma ExactPatternRanksFirst(c: Condition, other: Condition, lookupPath: string)
    requires IsComparator(c.pathMatcher.patternComparator(lookupPath))
    requires forall q :: q != lookupPath ==> c.pathMatcher.patternComparator(lookupPath)(lookupPath, q) < 0
    requires lookupPath in c.patterns.Elements()
    requires other.SortedMatches(lookupPath) != [] && lookupPath !in other.SortedMatches(lookupPath)
    ensures LexCompare(c.pathMatcher.patternComparator(lookupPath),
                       Dedup(c.SortedMatches(lookupPath)), Dedup(other.SortedMatches(lookupPath))) < 0
  {
    var cmp := c.pathMatcher.patternComparator(lookupPath);
    MatchingPatternShape(c, lookupPath, lookupPath);
    MatchingConditionProperties(c, lookupPath);
    var d := Dedup(c.SortedMatches(lookupPath));
    var e := Dedup(other.SortedMatches(lookupPath));
    DedupProperties(other.SortedMatches(lookupPath));
    assert lookupPath in d;
    var k :| 0 <= k < |d| && d[k] == lookupPath;
    ComparatorFacts(cmp, d[0], lookupPath);
    assert k == 0;
    assert e[0] in e;
    assert e[0] != lookupPath;
  }
}
