/** Selection of names by lists of shell patterns: `wildcard_match` and
    `wildcard_filter` of utils.py, the latter both as written and as intended. */
module Wildcard {
  import opened Glob

  /** `wildcard_match(value, patterns)`: `any` over the patterns. */
  function WildcardMatch(value: string, patterns: seq<string>): (b: bool)
    ensures b <==> exists i :: 0 <= i < |patterns| && FnMatch(value, patterns[i])
  {
    if patterns == [] then false
    else FnMatch(value, patterns[0]) || WildcardMatch(value, patterns[1..])
  }

  /** With one pattern, `wildcard_match` is that pattern's `fnmatch`. */
  lemma OnePattern(value: string, pattern: string)
    ensures WildcardMatch(value, [pattern]) <==> FnMatch(value, pattern)
  {
    assert [pattern][1..] == [];
  }

  /** The values that match one pattern, in the order of `values`: an inner
      generator of `wildcard_filter`, run with the pattern it reads. */
  function MatchingValues(values: seq<string>, pattern: string): (r: seq<string>)
    ensures forall x :: x in r <==> x in values && FnMatch(x, pattern)
    ensures forall x :: multiset(r)[x] == if FnMatch(x, pattern) then multiset(values)[x] else 0
  {
    if values == [] then []
    else
      assert values == [values[0]] + values[1..];
      (if FnMatch(values[0], pattern) then [values[0]] else []) + MatchingValues(values[1..], pattern)
  }

  /** `n` copies of `s`, one after another. */
  function Repeat(s: seq<string>, n: nat): (r: seq<string>)
    ensures |r| == |s| * n
    ensures forall x :: x in r <==> n > 0 && x in s
  {
    if n == 0 then [] else s + Repeat(s, n - 1)
  }

  /** `wildcard_filter(values, patterns)` as utils.py:70 runs it. The `*`
      drains the outer generator before `chain` reads from any inner one, and
      each inner generator reads the outer loop variable `pattern` only when it
      runs: by then it holds the last pattern. So the output is the last
      pattern's matches, once for each pattern. */
  function WildcardFilter(values: seq<string>, patterns: seq<string>): (r: seq<string>)
    ensures patterns == [] ==> r == []
    ensures forall x :: x in r <==>
              patterns != [] && x in values && FnMatch(x, patterns[|patterns| - 1])
  {
    if patterns == [] then []
    else Repeat(MatchingValues(values, patterns[|patterns| - 1]), |patterns|)
  }

  /** A value appears in the output once per occurrence in `values` for each
      pattern, when it matches the last pattern, and not at all otherwise. */
  lemma FilterMultiplicity(values: seq<string>, patterns: seq<string>, x: string)
    ensures multiset(WildcardFilter(values, patterns))[x] ==
              if patterns != [] && FnMatch(x, patterns[|patterns| - 1])
              then multiset(values)[x] * |patterns| else 0
  {
    if patterns != [] {
      RepeatMultiplicity(MatchingValues(values, patterns[|patterns| - 1]), |patterns|, x);
    }
  }

  lemma {:induction false} RepeatMultiplicity(s: seq<string>, n: nat, x: string)
    ensures multiset(Repeat(s, n))[x] == multiset(s)[x] * n
  {
    if n > 0 {
      RepeatMultiplicity(s, n - 1, x);
      assert multiset(Repeat(s, n)) == multiset(s) + multiset(Repeat(s, n - 1));
      OneMoreCopy(multiset(s)[x], n);
    }
  }

  lemma OneMoreCopy(a: nat, n: nat)
    requires n > 0
    ensures a + a * (n - 1) == a * n
  {
  }

  /** The output length is the last pattern's match count times the number
      of patterns. */
  lemma FilterLength(values: seq<string>, patterns: seq<string>)
    ensures |WildcardFilter(values, patterns)| ==
              if patterns == [] then 0
              else |MatchingValues(values, patterns[|patterns| - 1])| * |patterns|
  {
  }

  /** Collecting the output into a set, as the driver does, gives the values
      matching the last pattern; the earlier patterns select nothing. */
  lemma FilterAsSet(values: seq<string>, patterns: seq<string>)
    ensures (set x | x in WildcardFilter(values, patterns)) ==
            (set x | x in values && patterns != [] && FnMatch(x, patterns[|patterns| - 1]))
  {
  }

  predicate Plain(p: string) {
    forall i :: 0 <= i < |p| ==> !IsMeta(p[i])
  }

  /** The filter as written loses the matches of every pattern but the last:
      values `a`, `b` with patterns `a`, `b` (two different names without
      `*`, `?` or `[`) give `b`, `b`, where the pattern by pattern reading
      gives `a`, `b`. */
  lemma FilterLateBinding(a: string, b: string)
    requires a != b && Plain(a) && Plain(b)
    ensures WildcardFilter([a, b], [a, b]) == [b, b]
    ensures IntendedWildcardFilter([a, b], [a, b]) == [a, b]
  {
    MatchingEach(a, b);
    AsWrittenOnPair(a, b);
    IntendedOnPair(a, b);
  }

  lemma AsWrittenOnPair(a: string, b: string)
    requires MatchingValues([a, b], b) == [b]
    ensures WildcardFilter([a, b], [a, b]) == [b, b]
  {
    assert [a, b][1] == b;
    assert Repeat([b], 1) == [b];
    assert Repeat([b], 2) == [b] + Repeat([b], 1);
  }

  lemma IntendedOnPair(a: string, b: string)
    requires MatchingValues([a, b], a) == [a] && MatchingValues([a, b], b) == [b]
    ensures IntendedWildcardFilter([a, b], [a, b]) == [a, b]
  {
    IntendedCons([a, b], b, []);
    IntendedCons([a, b], a, [b]);
    assert [b] + [] == [b];
    assert [a] + [b] == [a, b];
  }

  /** The intended filter reads its first pattern, then the rest. */
  lemma IntendedCons(values: seq<string>, p: string, rest: seq<string>)
    ensures IntendedWildcardFilter(values, [p] + rest) ==
              MatchingValues(values, p) + IntendedWildcardFilter(values, rest)
  {
    assert ([p] + rest)[1..] == rest;
  }

  /** Each of two different plain names matches only the pattern equal to it. */
  lemma MatchingEach(a: string, b: string)
    requires a != b && Plain(a) && Plain(b)
    ensures MatchingValues([a, b], a) == [a]
    ensures MatchingValues([a, b], b) == [b]
  {
    PlainPatternMatchesItself(a, a);
    PlainPatternMatchesItself(a, b);
    PlainPatternMatchesItself(b, a);
    PlainPatternMatchesItself(b, b);
    MatchingOfTwo(a, b, a);
    MatchingOfTwo(a, b, b);
  }

  lemma MatchingOfTwo(x: string, y: string, p: string)
    ensures MatchingValues([x, y], p) ==
              (if FnMatch(x, p) then [x] else []) + (if FnMatch(y, p) then [y] else [])
  {
    MatchingCons(x, [y], p);
    MatchingCons(y, [], p);
    assert [x] + [y] == [x, y];
    assert [y] + [] == [y];
  }

  lemma MatchingCons(v: string, rest: seq<string>, p: string)
    ensures MatchingValues([v] + rest, p) ==
              (if FnMatch(v, p) then [v] else []) + MatchingValues(rest, p)
  {
    assert ([v] + rest)[1..] == rest;
  }

  /** What the filter as written keeps, the intended one keeps too. */
  lemma FilterWithinIntended(values: seq<string>, patterns: seq<string>)
    ensures (set x | x in WildcardFilter(values, patterns)) <=
            (set x | x in IntendedWildcardFilter(values, patterns))
  {
    forall x | x in WildcardFilter(values, patterns)
      ensures x in IntendedWildcardFilter(values, patterns)
    {
      assert WildcardMatch(x, patterns) by {
        assert FnMatch(x, patterns[|patterns| - 1]);
      }
    }
  }

  /** The intended filter: the matches of each pattern, one pattern after another. */
  function IntendedWildcardFilter(values: seq<string>, patterns: seq<string>): (r: seq<string>)
    ensures forall x :: x in r <==> x in values && WildcardMatch(x, patterns)
    ensures patterns == [] ==> r == []
  {
    if patterns == [] then []
    else MatchingValues(values, patterns[0]) + IntendedWildcardFilter(values, patterns[1..])
  }

  /** How many of the patterns match `x`. */
  function MatchCount(x: string, patterns: seq<string>): (n: nat)
    ensures n <= |patterns|
    ensures n == 0 <==> !WildcardMatch(x, patterns)
  {
    if patterns == [] then 0
    else (if FnMatch(x, patterns[0]) then 1 else 0) + MatchCount(x, patterns[1..])
  }

  /** A value appears in the output once per occurrence in `values` for each
      pattern it matches: a value that two patterns match appears twice. */
  lemma {:induction false} IntendedFilterMultiplicity(values: seq<string>, patterns: seq<string>, x: string)
    ensures multiset(IntendedWildcardFilter(values, patterns))[x] == multiset(values)[x] * MatchCount(x, patterns)
  {
    if patterns != [] {
      var a, rest := multiset(values)[x], patterns[1..];
      IntendedFilterMultiplicity(values, rest, x);
      var hit := FnMatch(x, patterns[0]);
      var n := MatchCount(x, patterns);
      assert n == (if hit then 1 else 0) + MatchCount(x, rest);
      CountStep(multiset(IntendedWildcardFilter(values, patterns))[x],
                multiset(MatchingValues(values, patterns[0]))[x], a, MatchCount(x, rest), hit, n);
    } else {
      assert IntendedWildcardFilter(values, patterns) == [] && MatchCount(x, patterns) == 0;
    }
  }

  lemma CountStep(total: nat, here: nat, a: nat, m: nat, hit: bool, n: nat)
    requires total == here + a * m
    requires here == if hit then a else 0
    requires n == (if hit then 1 else 0) + m
    ensures total == a * n
  {
  }

  /** The number of matches each pattern contributes, summed over the patterns. */
  function TotalMatches(values: seq<string>, patterns: seq<string>): nat {
    if patterns == [] then 0
    else |MatchingValues(values, patterns[0])| + TotalMatches(values, patterns[1..])
  }

  lemma {:induction false} IntendedFilterLength(values: seq<string>, patterns: seq<string>)
    ensures |IntendedWildcardFilter(values, patterns)| == TotalMatches(values, patterns)
  {
    if patterns != [] {
      IntendedFilterLength(values, patterns[1..]);
    }
  }

  /** Collecting the output into a set, as the driver does, gives the values
      matching some pattern, whatever order `values` came in. */
  lemma IntendedFilterAsSet(values: seq<string>, patterns: seq<string>)
    ensures (set x | x in IntendedWildcardFilter(values, patterns)) ==
            (set x | x in values && WildcardMatch(x, patterns))
  {
  }
}
