# PatternsRequestCondition, modelled in Dafny

This project models `PatternsRequestCondition` from Spring Web MVC. The class
is the URL-pattern part of an annotated request mapping. It holds the path
patterns of one mapping, read as a disjunction, and offers four operations:

- **construction**: patterns get a leading "/", duplicates collapse in
  first-insertion order, an input without text becomes the shared sentinel
  set `{""}`, and file extensions get a leading ".";
- **`combine`**: merges a type-level condition with a method-level one;
- **`getMatchingPattern` / `getMatchingPatterns` / `getMatchingCondition`**:
  find the patterns, or pattern variants, that match a lookup path, sorted
  closest match first;
- **`compareTo`**: ranks two conditions that have already been matched.

The `PathMatcher` strategy is kept abstract. `PathMatching.PathMatcher` holds
three function values: `match`, `combine` and `getPatternComparator`. The
ghost predicate `IsComparator` states the `java.util.Comparator` contract: the
sign flips when the arguments are swapped, and "compares at most zero" is
transitive. Every property that needs a well-behaved comparator assumes it.

Files:

- `java_strings.dfy` (module `JavaStrings`): `Character.isWhitespace`,
  `StringUtils.hasLength`, `StringUtils.hasText`, and the `startsWith`,
  `endsWith` and `indexOf` queries that are used.
- `linked_sets.dfy` (module `LinkedSets`): a `LinkedHashSet`, as the sequence
  of its elements in first-insertion order.
- `path_matching.dfy` (module `PathMatching`): the matcher, the comparator
  contract, and `List.sort` with such a comparator.
- `patterns_request_condition.dfy` (module `PatternsRequestCondition`): the
  condition and its operations.

The Java fields are final, so the condition is a datatype value (`Condition`).
The source's loops are methods with loop invariants:

- `initPatterns` fills a set;
- the main constructor normalises the extensions;
- `combine` has a nested loop;
- `getMatchingPattern` loops over the extensions;
- `getMatchingPatterns` collects the matches;
- `compareTo` walks two iterators.

Each method is proved equal to a specification function. Lemmas prove what
the source promises about those functions. The sentinel `EMPTY_PATH_PATTERN`
is compared by identity in the source. Here it is the constructor
`PatternSet.EmptyPathPattern`, a different value from a built set that holds
only "".

Where the documentation and the code differ, the model follows the code:

- The constructors' doc comments (PatternsRequestCondition.java:66-67) say
  that a condition with no patterns matches every request. The code instead
  runs the sentinel's "" through the same checks as any other pattern.
  `SentinelMatchesLikeEmptyPattern` shows that, under a literal matcher, the
  sentinel does not match "/foo".
- The doc comment of `getMatchingCondition` (line 239) says it returns the
  same instance when the condition has no patterns. The code never does: it
  returns a new condition, or null.

Two facts about `compareTo` that the model keeps as the code has them: it
returns the pattern comparator's raw result for the first pair that does not
tie, which may be any integer; and when all compared pairs tie, it returns -1
if `this` has patterns left over, so the condition with more patterns ranks
first, as the method's doc comment says ("considered a closer match").

## Model

| member | source | states |
|---|---|---|
| `PatternsRequestCondition.HasPattern` | spring-webmvc/src/main/java/org/springframework/web/servlet/mvc/condition/PatternsRequestCondition.java:153-162 | true exactly when some given pattern has a non-whitespace character |
| `PatternsRequestCondition.Prepend` | spring-webmvc/src/main/java/org/springframework/web/servlet/mvc/condition/PatternsRequestCondition.java:145-147 | a normalised pattern is empty only if the input was, otherwise starts with "/"; it is the input or the input with "/" in front; a pattern already starting with "/" is unchanged |
| `PatternsRequestCondition.InitPatterns` | spring-webmvc/src/main/java/org/springframework/web/servlet/mvc/condition/PatternsRequestCondition.java:139-151 | the result is the sentinel exactly when no pattern has text; otherwise it is the linked set of the normalised patterns |
| `PatternsRequestCondition.InitialPatternsNormalized` | spring-webmvc/src/main/java/org/springframework/web/servlet/mvc/condition/PatternsRequestCondition.java:143-150 | a built set has no duplicates; each element is "" or starts with "/"; it holds every normalised input and nothing else |
| `PatternsRequestCondition.InitialPatternsOrder` | spring-webmvc/src/main/java/org/springframework/web/servlet/mvc/condition/PatternsRequestCondition.java:143-150 | elements are ordered by the first occurrence of their normalised form, as a `LinkedHashSet` keeps them |
| `PatternsRequestCondition.SentinelExactlyWhenNoText` | spring-webmvc/src/main/java/org/springframework/web/servlet/mvc/condition/PatternsRequestCondition.java:139-162 | the sentinel is chosen exactly when every pattern is empty or blank; a "" next to a real pattern is kept as an ordinary element |
| `PatternsRequestCondition.NewCondition` | spring-webmvc/src/main/java/org/springframework/web/servlet/mvc/condition/PatternsRequestCondition.java:119-137 | stores the initial pattern set, the matcher and both flags; keeps the number and order of the extensions; each extension starts with "." and is the given one, with "." prepended only when it was missing; the result is valid |
| `PatternsRequestCondition.NewWithPatterns` | spring-webmvc/src/main/java/org/springframework/web/servlet/mvc/condition/PatternsRequestCondition.java:69-71 | suffix and trailing-slash matching are on and there are no extensions |
| `PatternsRequestCondition.NewWithTrailingSlashMatch` | spring-webmvc/src/main/java/org/springframework/web/servlet/mvc/condition/PatternsRequestCondition.java:82-86 | suffix matching is off, trailing-slash matching is as given, and there are no extensions |
| `PatternsRequestCondition.NewWithMatchFlags` | spring-webmvc/src/main/java/org/springframework/web/servlet/mvc/condition/PatternsRequestCondition.java:100-104 | both flags are as given and there are no extensions |
| `PatternsRequestCondition.Condition.Combine` | spring-webmvc/src/main/java/org/springframework/web/servlet/mvc/condition/PatternsRequestCondition.java:202-221 | a sentinel `other` gives back `this` (also when both are sentinels); otherwise a sentinel `this` gives back `other`; otherwise the result has the deduplicated pairwise combinations as patterns and everything else from `this`; validity is preserved |
| `PatternsRequestCondition.CrossContents` | spring-webmvc/src/main/java/org/springframework/web/servlet/mvc/condition/PatternsRequestCondition.java:213-219 | the nested loop produces |xs|·|ys| combinations, and these are exactly `combine(x, y)` for `x` in `this` and `y` in `other` |
| `PatternsRequestCondition.CombinedPatternsContents` | spring-webmvc/src/main/java/org/springframework/web/servlet/mvc/condition/PatternsRequestCondition.java:212-220 | the combined set has no duplicates, holds exactly the pairwise combinations, and has at most |this|·|other| elements |
| `PatternsRequestCondition.Condition.GetMatchingPattern` | spring-webmvc/src/main/java/org/springframework/web/servlet/mvc/condition/PatternsRequestCondition.java:277-306 | with its early returns and extension loop, the result is the candidate of the first successful check, in the order exact, suffix variants, plain, trailing slash |
| `PatternsRequestCondition.FirstSuccessIsFirst` | spring-webmvc/src/main/java/org/springframework/web/servlet/mvc/condition/PatternsRequestCondition.java:228-236 | the chosen candidate belongs to a successful check with no successful check before it; the result is null exactly when no check succeeds |
| `PatternsRequestCondition.MatchingPatternShape` | spring-webmvc/src/main/java/org/springframework/web/servlet/mvc/condition/PatternsRequestCondition.java:277-306 | a pattern equal to the path is returned; a result equals or matches the path; a plain match is never lost; the result is null, the pattern, the pattern with an extension, with ".*", or with "/", each only under its documented conditions |
| `PatternsRequestCondition.MatchingPatternCases` | spring-webmvc/src/main/java/org/springframework/web/servlet/mvc/condition/PatternsRequestCondition.java:277-306 | the result is the pattern when it equals the path; else the first successful suffix variant; else the pattern when it matches; else the pattern with "/" when trailing-slash matching is on, the pattern does not end in "/" and that variant matches; else null |
| `PatternsRequestCondition.MatchingPatternPrecedence` | spring-webmvc/src/main/java/org/springframework/web/servlet/mvc/condition/PatternsRequestCondition.java:283-288 | when several configured extensions match, the first in configured order is the suffix variant reported |
| `PatternsRequestCondition.Condition.GetMatchingPatterns` | spring-webmvc/src/main/java/org/springframework/web/servlet/mvc/condition/PatternsRequestCondition.java:259-275 | the result is the per-pattern matches sorted by the path's comparator; it is empty exactly when no pattern matches; it has at most one entry per pattern; it is a permutation of the matches; it is sorted when the comparator keeps its contract |
| `PatternsRequestCondition.MatchesInOrderContents` | spring-webmvc/src/main/java/org/springframework/web/servlet/mvc/condition/PatternsRequestCondition.java:260-267 | the collected list has at most one entry per pattern; it is empty exactly when no pattern matches; every entry is some pattern's match, and every pattern's match is an entry |
| `PatternsRequestCondition.Condition.GetMatchingCondition` | spring-webmvc/src/main/java/org/springframework/web/servlet/mvc/condition/PatternsRequestCondition.java:245-249 | null exactly when no pattern matches; otherwise this condition with the sorted matches, deduplicated as a linked set, as its patterns |
| `PatternsRequestCondition.MatchingConditionProperties` | spring-webmvc/src/main/java/org/springframework/web/servlet/mvc/condition/PatternsRequestCondition.java:227-249 | the matched condition's patterns are duplicate-free and sorted closest first; they are exactly the patterns' matches; the condition stays valid |
| `PatternsRequestCondition.DedupSorted` | spring-webmvc/src/main/java/org/springframework/web/servlet/mvc/condition/PatternsRequestCondition.java:248 | building a linked set from a sorted list keeps it sorted |
| `PatternsRequestCondition.Condition.CompareTo` | spring-webmvc/src/main/java/org/springframework/web/servlet/mvc/condition/PatternsRequestCondition.java:320-340 | the loop over two iterators computes the lexicographic comparison of the two pattern lists under the path's comparator |
| `PatternsRequestCondition.LexCompareFirstDifference` | spring-webmvc/src/main/java/org/springframework/web/servlet/mvc/condition/PatternsRequestCondition.java:325-330 | the result is the comparator's value on the first pair that does not tie |
| `PatternsRequestCondition.LexCompareAllTies` | spring-webmvc/src/main/java/org/springframework/web/servlet/mvc/condition/PatternsRequestCondition.java:331-339 | when all compared pairs tie, the side with more patterns gets -1 when it is `this` and 1 when it is `other`; equal lengths give 0 |
| `PatternsRequestCondition.LexCompareAntisymmetric` | spring-webmvc/src/main/java/org/springframework/web/servlet/mvc/condition/PatternsRequestCondition.java:308-318 | swapping the two conditions flips the sign of the result |
| `PatternsRequestCondition.LexCompareTransitive` | spring-webmvc/src/main/java/org/springframework/web/servlet/mvc/condition/PatternsRequestCondition.java:308-318 | "ranks no later than" is transitive, so `compareTo` itself keeps the comparator contract |
| `PatternsRequestCondition.ExplicitAndEmptyPaths` | spring-webmvc/src/test/java/org/springframework/web/servlet/mvc/method/annotation/ServletAnnotationControllerHandlerMethodTests.java:816-829 | a mapping for {"/", ""} keeps both as ordinary patterns, and both "/" and "" find a match under any matcher |
| `PatternsRequestCondition.ExactPatternRanksFirst` | spring-webmvc/src/test/java/org/springframework/web/servlet/mvc/method/annotation/ServletAnnotationControllerHandlerMethodTests.java:831-839 | when the comparator puts the lookup path itself first, a mapping listing that path ranks before a matching mapping that does not |
| `PatternsRequestCondition.TrailingSlashPattern` | spring-webmvc/src/test/java/org/springframework/web/servlet/mvc/method/annotation/ServletAnnotationControllerHandlerMethodTests.java:1390-1398 | a mapping to "/{templatePath}/" is stored as given and, when the matcher matches it against "/foo/" (and not its ".*" variant), it is the single match; the trailing-slash variant is not tried |
| `PatternsRequestCondition.SentinelMatchesLikeEmptyPattern` | spring-webmvc/src/main/java/org/springframework/web/servlet/mvc/condition/PatternsRequestCondition.java:63-71 | under a literal matcher the sentinel does not match "/foo", unlike what the doc comment claims |
| `PathMatching.Sort` | spring-webmvc/src/main/java/org/springframework/web/servlet/mvc/condition/PatternsRequestCondition.java:271-273 | sorting neither adds nor drops an element |
| `PathMatching.SortSorted` | spring-webmvc/src/main/java/org/springframework/web/servlet/mvc/condition/PatternsRequestCondition.java:271-273 | under a comparator that keeps its contract, the sorted list is ordered and is a permutation of the input |
| `PathMatching.SortStable` | spring-webmvc/src/main/java/org/springframework/web/servlet/mvc/condition/PatternsRequestCondition.java:271-273 | under a comparator that keeps its contract the sort is stable: for every `z`, the elements that tie with `z` come out in the order they went in |
| `LinkedSets.AddProperties` | spring-webmvc/src/main/java/org/springframework/web/servlet/mvc/condition/PatternsRequestCondition.java:148 | adding an element puts it in the set, adds nothing else, and keeps the set duplicate-free |
| `LinkedSets.DedupProperties` | spring-webmvc/src/main/java/org/springframework/web/servlet/mvc/condition/PatternsRequestCondition.java:143-150 | a linked set built from a list holds each element of the list once, in first-occurrence order, and nothing else |

## Left out

- `UrlPathHelper.getLookupPathForRequest` and `HttpServletRequest`: the lookup path is a parameter of the matching and ranking operations.
- The default `AntPathMatcher` and its glob semantics, `combine` rules and specificity comparator: the matcher is always given. The null-matcher default of the constructors is not modelled.
- Null arguments: a null pattern array behaves in the source exactly like an empty one, so the empty sequence covers it. Null elements inside the array are not modelled. A null extension list behaves like an empty one.
- NewCondition: requires every file extension to be non-empty, because the source reads its first character and throws on an empty string.
- Object identity: `combine` returning `this` or `other` is modelled as returning an equal value. The identity test against `EMPTY_PATH_PATTERN` is modelled as a separate constructor.
- The algorithm of `List.sort`, an in-place merge sort: the model is a functional insertion sort, proved sorted, a permutation of its input and stable, the guarantees `List.sort` gives. The exception that `List.sort` may throw for a comparator that breaks its contract is not modelled.
- The lazily allocated match list and the immutable `Collections.emptyList()` it falls back to: both are just the empty sequence here.
- `getPatterns`, `getContent`, `getToStringInfix` and `toString`: accessors and display only.
- The request-mapping registry, ambiguity detection and dispatch that consume this condition: outside this class.
- Characters are Unicode scalar values rather than UTF-16 code units. `IsWhitespace` follows `Character.isWhitespace` of JDK 8 (Unicode 6.2, where U+180E is still a space separator) on the Basic Multilingual Plane.
