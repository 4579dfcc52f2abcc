/** The ranking in `visualize_top_words` (lines 58-59): a stable sort of the
    dictionary's items by count, descending, the slice `[:top_n]`, and the
    `zip(*...)` that splits the result into words and frequencies.  A variant
    that breaks ties by ascending lexicographic order of the word is given at
    the end; the source itself keeps the dictionary's order on ties. */
module Ranking {
  import opened MapReduce

  predicate NonIncreasing(s: seq<Pair>) {
    forall i, j :: 0 <= i < j < |s| ==> s[i].value >= s[j].value
  }

  /** The entries of `s` whose count is `c`, in the order of `s`. */
  function WithCount(s: seq<Pair>, c: int): seq<Pair> {
    if s == [] then []
    else (if s[0].value == c then [s[0]] else []) + WithCount(s[1..], c)
  }

  lemma {:induction false} WithCountConcat(a: seq<Pair>, b: seq<Pair>, c: int)
    ensures WithCount(a + b, c) == WithCount(a, c) + WithCount(b, c)
  {
    if a == [] {
      assert a + b == b;
    } else {
      assert a + b == [a[0]] + (a[1..] + b);
      assert a == [a[0]] + a[1..];
      WithCountCons(a[0], a[1..] + b, c);
      WithCountCons(a[0], a[1..], c);
      WithCountConcat(a[1..], b, c);
    }
  }

  // ---------------------------------------------------------------------
  // The stable descending sort of the items by count (line 58)

  /** Puts `x` in front of the first entry whose count is not larger than its own. */
  function InsertByCount(x: Pair, s: seq<Pair>): (r: seq<Pair>)
    ensures multiset(r) == multiset(s) + multiset{x}
  {
    if s == [] || s[0].value <= x.value then [x] + s
    else
      assert s == [s[0]] + s[1..];
      [s[0]] + InsertByCount(x, s[1..])
  }

  lemma InsertByCountMembers(x: Pair, s: seq<Pair>, y: Pair)
    requires y in InsertByCount(x, s)
    ensures y == x || y in s
  {
    assert y in multiset(InsertByCount(x, s));
  }

  lemma {:induction false} InsertByCountSorted(x: Pair, s: seq<Pair>)
    requires NonIncreasing(s)
    ensures NonIncreasing(InsertByCount(x, s))
  {
    if s == [] || s[0].value <= x.value {
      forall y | y in s ensures x.value >= y.value {
        if y != s[0] { HeadDominates(s, y); }
      }
      PrependNonIncreasing(x, s);
    } else {
      var rest := InsertByCount(x, s[1..]);
      InsertByCountSorted(x, s[1..]);
      forall y | y in rest ensures s[0].value >= y.value {
        InsertByCountMembers(x, s[1..], y);
        if y != x { HeadDominates(s, y); }
      }
      PrependNonIncreasing(s[0], rest);
    }
  }

  /** Python's `sorted(..., reverse=True)` by count: a stable sort, so
      entries with equal counts keep their relative order. */
  function SortByCount(s: seq<Pair>): (r: seq<Pair>)
    ensures multiset(r) == multiset(s)
    ensures NonIncreasing(r)
  {
    if s == [] then []
    else
      assert s == [s[0]] + s[1..];
      InsertByCountSorted(s[0], SortByCount(s[1..]));
      InsertByCount(s[0], SortByCount(s[1..]))
  }

  lemma WithCountCons(y: Pair, t: seq<Pair>, c: int)
    ensures WithCount([y] + t, c) == (if y.value == c then [y] else []) + WithCount(t, c)
  {
    assert ([y] + t)[1..] == t;
  }

  lemma {:induction false} InsertByCountStable(x: Pair, s: seq<Pair>, c: int)
    ensures WithCount(InsertByCount(x, s), c) == WithCount([x] + s, c)
  {
    if s != [] && s[0].value > x.value {
      var rest := InsertByCount(x, s[1..]);
      assert InsertByCount(x, s) == [s[0]] + rest;
      assert [s[0]] + s[1..] == s;
      InsertByCountStable(x, s[1..], c);
      WithCountPassHead(s[0], x, rest, s[1..], c);
    }
  }

  /** Two entries with different counts can trade places without changing
      any `WithCount`. */
  lemma WithCountPassHead(y: Pair, x: Pair, u: seq<Pair>, t: seq<Pair>, c: int)
    requires y.value != x.value
    requires WithCount(u, c) == WithCount([x] + t, c)
    ensures WithCount([y] + u, c) == WithCount([x] + ([y] + t), c)
  {
    var wy := if y.value == c then [y] else [];
    var wx := if x.value == c then [x] else [];
    assert wx == [] || wy == [];
    calc {
      WithCount([y] + u, c);
      { WithCountCons(y, u, c); }
      wy + WithCount(u, c);
      { WithCountCons(x, t, c); }
      wy + (wx + WithCount(t, c));
      { assert wy + (wx + WithCount(t, c)) == wx + (wy + WithCount(t, c)); }
      wx + (wy + WithCount(t, c));
      { WithCountCons(y, t, c); }
      wx + WithCount([y] + t, c);
      { WithCountCons(x, [y] + t, c); }
      WithCount([x] + ([y] + t), c);
    }
  }

  /** Stability: for every count, the entries with that count come out in
      the order they went in. */
  lemma {:induction false} SortByCountStable(s: seq<Pair>, c: int)
    ensures WithCount(SortByCount(s), c) == WithCount(s, c)
  {
    if s != [] {
      SortByCountStable(s[1..], c);
      InsertByCountStable(s[0], SortByCount(s[1..]), c);
      assert ([s[0]] + SortByCount(s[1..]))[1..] == SortByCount(s[1..]);
    }
  }

  lemma HeadDominates(s: seq<Pair>, y: Pair)
    requires NonIncreasing(s) && s != [] && (y in s[1..] || (y in s && y != s[0]))
    ensures s[0].value >= y.value
  {
    assert s == [s[0]] + s[1..];
    var k :| 0 <= k < |s[1..]| && s[1..][k] == y;
    assert s[k + 1] == y;
  }

  lemma PrependNonIncreasing(y: Pair, t: seq<Pair>)
    requires NonIncreasing(t)
    requires forall z :: z in t ==> y.value >= z.value
    ensures NonIncreasing([y] + t)
  {
    forall i, j | 0 <= i < j < |[y] + t|
      ensures ([y] + t)[i].value >= ([y] + t)[j].value
    {
      if i == 0 {
        assert t[j - 1] in t;
      }
    }
  }

  // ---------------------------------------------------------------------
  // The slice to top_n entries (line 58)

  /** Python's slice `s[:n]`: a negative `n` counts from the end. */
  function Slice(s: seq<Pair>, n: int): (r: seq<Pair>)
    ensures n >= 0 ==> |r| == if n < |s| then n else |s|
    ensures n < 0 ==> |r| == if |s| + n > 0 then |s| + n else 0
    ensures r == s[..|r|]
  {
    var end := if n >= 0 then (if n < |s| then n else |s|)
               else (if |s| + n > 0 then |s| + n else 0);
    s[..end]
  }

  /** The expression on line 58. */
  function Ranked(freq: seq<Pair>, topN: int): seq<Pair> {
    Slice(SortByCount(freq), topN)
  }

  lemma SortByCountLength(s: seq<Pair>)
    ensures |SortByCount(s)| == |s|
  {
    assert |SortByCount(s)| == |multiset(SortByCount(s))|;
  }

  /** Truncation returns min(top_n, number of entries) items when top_n >= 0. */
  lemma RankedLength(freq: seq<Pair>, topN: int)
    requires topN >= 0
    ensures |Ranked(freq, topN)| == if topN < |freq| then topN else |freq|
  {
    SortByCountLength(freq);
  }

  /** The ranking draws its entries from the dictionary without repetition,
      and lists them in non-increasing order of count. */
  lemma RankedDrawn(freq: seq<Pair>, topN: int)
    ensures multiset(Ranked(freq, topN)) <= multiset(freq)
    ensures NonIncreasing(Ranked(freq, topN))
  {
    var sorted := SortByCount(freq);
    var r := Ranked(freq, topN);
    assert sorted == r + sorted[|r|..];
    assert multiset(sorted) == multiset(r) + multiset(sorted[|r|..]);
  }

  /** The entries the slice drops from the sorted list. */
  function LeftOut(freq: seq<Pair>, topN: int): seq<Pair> {
    SortByCount(freq)[|Ranked(freq, topN)|..]
  }

  /** The kept and the dropped entries together are the dictionary, and
      every dropped entry has a count no larger than any kept one. */
  lemma RankedLeavesOutSmaller(freq: seq<Pair>, topN: int)
    ensures multiset(Ranked(freq, topN)) + multiset(LeftOut(freq, topN)) == multiset(freq)
    ensures forall i, j :: 0 <= i < |Ranked(freq, topN)| && 0 <= j < |LeftOut(freq, topN)| ==>
      LeftOut(freq, topN)[j].value <= Ranked(freq, topN)[i].value
  {
    var sorted := SortByCount(freq);
    var r := Ranked(freq, topN);
    var rest := LeftOut(freq, topN);
    assert sorted == r + rest;
    forall i, j | 0 <= i < |r| && 0 <= j < |rest|
      ensures rest[j].value <= r[i].value
    {
      assert sorted[i] == r[i] && sorted[|r| + j] == rest[j];
    }
  }

  predicate IsPrefix(a: seq<Pair>, b: seq<Pair>) {
    |a| <= |b| && b[..|a|] == a
  }

  /** Ties keep the dictionary's order: for every count, the ranked entries
      with that count are the first entries of the dictionary with that count. */
  lemma RankedKeepsTieOrder(freq: seq<Pair>, topN: int, c: int)
    ensures IsPrefix(WithCount(Ranked(freq, topN), c), WithCount(freq, c))
  {
    var sorted := SortByCount(freq);
    var r := Ranked(freq, topN);
    assert sorted == r + sorted[|r|..];
    WithCountConcat(r, sorted[|r|..], c);
    SortByCountStable(freq, c);
  }

  lemma TwoOccurrences(r: seq<Pair>, i: nat, j: nat)
    requires i < j < |r| && r[i] == r[j]
    ensures multiset(r)[r[i]] >= 2
  {
    assert r == r[..i] + [r[i]] + r[i + 1..j] + [r[j]] + r[j + 1..];
  }

  lemma DistinctKeysOnce(d: seq<Pair>, a: nat)
    requires Distinct(Keys(d)) && a < |d|
    ensures multiset(d)[d[a]] == 1
  {
    assert d == d[..a] + [d[a]] + d[a + 1..];
    assert d[a] !in d[..a] by {
      assert forall b :: 0 <= b < a ==> d[b].key != d[a].key;
    }
    assert d[a] !in d[a + 1..] by {
      assert forall b :: a < b < |d| ==> d[b].key != d[a].key;
    }
  }

  /** Entries drawn without repetition from a dictionary have distinct keys. */
  lemma DrawnKeysDistinct(r: seq<Pair>, d: seq<Pair>)
    requires multiset(r) <= multiset(d)
    requires Distinct(Keys(d))
    ensures Distinct(Keys(r))
  {
    forall i, j | 0 <= i < j < |r|
      ensures r[i].key != r[j].key
    {
      if r[i].key == r[j].key {
        assert r[i] in multiset(d) && r[j] in multiset(d);
        var a :| 0 <= a < |d| && d[a] == r[i];
        var b :| 0 <= b < |d| && d[b] == r[j];
        DistinctKeysOnce(d, a);
        TwoOccurrences(r, i, j);
        assert false;
      }
    }
  }

  /** The ranking of a dictionary repeats no word. */
  lemma RankedDistinct(freq: seq<Pair>, topN: int)
    requires Distinct(Keys(freq))
    ensures Distinct(Keys(Ranked(freq, topN)))
  {
    RankedDrawn(freq, topN);
    DrawnKeysDistinct(Ranked(freq, topN), freq);
  }

  // ---------------------------------------------------------------------
  // The unpacking of the ranking into words and frequencies (line 59)

  /** Unpacking into two names needs two tuples from `zip`, so an empty
      ranking is a `ValueError`. */
  datatype Bars = Bars(words: seq<string>, frequencies: seq<int>) | NotEnoughValuesToUnpack

  function Unzip(ranked: seq<Pair>): (b: Bars)
    ensures b.NotEnoughValuesToUnpack? <==> ranked == []
    ensures b.Bars? ==> (|b.words| == |b.frequencies| == |ranked| &&
      forall i :: 0 <= i < |ranked| ==> ranked[i] == Pair(b.words[i], b.frequencies[i]))
  {
    if ranked == [] then NotEnoughValuesToUnpack
    else Bars(Keys(ranked), seq(|ranked|, i requires 0 <= i < |ranked| => ranked[i].value))
  }

  /** The data `visualize_top_words` hands to the chart. Its default
      `top_n` is 10, so a call without it is `TopWords(freq, 10)`. */
  function TopWords(freq: seq<Pair>, topN: int): Bars {
    Unzip(Ranked(freq, topN))
  }

  /** The unpacking fails exactly when the dictionary is empty or the slice
      keeps nothing (`top_n == 0`, or a negative `top_n` that drops every entry). */
  lemma TopWordsFails(freq: seq<Pair>, topN: int)
    ensures TopWords(freq, topN).NotEnoughValuesToUnpack? <==> freq == [] || topN == 0 || topN <= -|freq|
  {
    SortByCountLength(freq);
  }

  // ---------------------------------------------------------------------
  // A deterministic tie-break: ascending lexicographic order on the word

  /** Python's `<=` on strings: code point by code point, a prefix first. */
  predicate LexLessEq(a: string, b: string) {
    a == [] || (b != [] && (a[0] < b[0] || (a[0] == b[0] && LexLessEq(a[1..], b[1..]))))
  }

  lemma {:induction false} LexTotal(a: string, b: string)
    ensures LexLessEq(a, b) || LexLessEq(b, a)
  {
    if a != [] && b != [] && a[0] == b[0] {
      LexTotal(a[1..], b[1..]);
    }
  }

  lemma {:induction false} LexTransitive(a: string, b: string, c: string)
    requires LexLessEq(a, b) && LexLessEq(b, c)
    ensures LexLessEq(a, c)
  {
    if a != [] && a[0] == b[0] && b[0] == c[0] {
      LexTransitive(a[1..], b[1..], c[1..]);
    }
  }

  /** `x` ranks before `y`: a larger count, or an equal count and a word that is not larger. */
  predicate RankBefore(x: Pair, y: Pair) {
    x.value > y.value || (x.value == y.value && LexLessEq(x.key, y.key))
  }

  predicate RankOrdered(s: seq<Pair>) {
    forall i, j :: 0 <= i < j < |s| ==> RankBefore(s[i], s[j])
  }

  lemma PrependRankOrdered(x: Pair, s: seq<Pair>)
    requires RankOrdered(s)
    requires s != [] ==> RankBefore(x, s[0])
    ensures RankOrdered([x] + s)
  {
    forall j | 0 < j < |s|
      ensures RankBefore(x, s[j])
    {
      if x.value == s[0].value && s[0].value == s[j].value {
        LexTransitive(x.key, s[0].key, s[j].key);
      }
    }
  }

  function InsertByRank(x: Pair, s: seq<Pair>): (r: seq<Pair>)
    ensures multiset(r) == multiset(s) + multiset{x}
  {
    if s == [] || RankBefore(x, s[0]) then [x] + s
    else
      assert s == [s[0]] + s[1..];
      [s[0]] + InsertByRank(x, s[1..])
  }

  lemma InsertByRankMembers(x: Pair, s: seq<Pair>, y: Pair)
    requires y in InsertByRank(x, s)
    ensures y == x || y in s
  {
    assert y in multiset(InsertByRank(x, s));
  }

  lemma {:induction false} InsertByRankSorted(x: Pair, s: seq<Pair>)
    requires RankOrdered(s)
    ensures RankOrdered(InsertByRank(x, s))
  {
    if s == [] || RankBefore(x, s[0]) {
      PrependRankOrdered(x, s);
    } else {
      var rest := InsertByRank(x, s[1..]);
      InsertByRankSorted(x, s[1..]);
      LexTotal(x.key, s[0].key);
      forall y | y in rest ensures RankBefore(s[0], y) {
        InsertByRankMembers(x, s[1..], y);
        if y != x { HeadRanksFirst(s, y); }
      }
      PrependRanked(s[0], rest);
    }
  }

  lemma HeadRanksFirst(s: seq<Pair>, y: Pair)
    requires RankOrdered(s) && s != [] && y in s[1..]
    ensures RankBefore(s[0], y)
  {
    var k :| 0 <= k < |s[1..]| && s[1..][k] == y;
    assert s[k + 1] == y;
  }

  lemma PrependRanked(y: Pair, t: seq<Pair>)
    requires RankOrdered(t)
    requires forall z :: z in t ==> RankBefore(y, z)
    ensures RankOrdered([y] + t)
  {
    forall i, j | 0 <= i < j < |[y] + t|
      ensures RankBefore(([y] + t)[i], ([y] + t)[j])
    {
      if i == 0 {
        assert t[j - 1] in t;
      }
    }
  }

  /** Sorts by count descending and, among equal counts, by word ascending. */
  function SortByCountThenWord(s: seq<Pair>): (r: seq<Pair>)
    ensures multiset(r) == multiset(s)
    ensures RankOrdered(r)
  {
    if s == [] then []
    else
      assert s == [s[0]] + s[1..];
      InsertByRankSorted(s[0], SortByCountThenWord(s[1..]));
      InsertByRank(s[0], SortByCountThenWord(s[1..]))
  }

  /** The ranking with the lexicographic tie-break. */
  function RankedLexicographic(freq: seq<Pair>, topN: int): seq<Pair> {
    Slice(SortByCountThenWord(freq), topN)
  }

  /** The lexicographic ranking has the source's length. */
  lemma RankedLexicographicLength(freq: seq<Pair>, topN: int)
    requires topN >= 0
    ensures |RankedLexicographic(freq, topN)| == if topN < |freq| then topN else |freq|
  {
    assert |SortByCountThenWord(freq)| == |multiset(SortByCountThenWord(freq))|;
  }

  /** Like the source's ranking, it draws from the dictionary without
      repetition, in non-increasing order of count. */
  lemma RankedLexicographicDrawn(freq: seq<Pair>, topN: int)
    ensures multiset(RankedLexicographic(freq, topN)) <= multiset(freq)
    ensures NonIncreasing(RankedLexicographic(freq, topN))
  {
    var sorted := SortByCountThenWord(freq);
    var r := RankedLexicographic(freq, topN);
    assert sorted == r + sorted[|r|..];
    assert multiset(sorted) == multiset(r) + multiset(sorted[|r|..]);
    forall i, j | 0 <= i < j < |r| ensures r[i].value >= r[j].value {
      assert RankBefore(sorted[i], sorted[j]);
    }
  }

  /** Unlike the source's ranking, equal counts come in ascending order of the word. */
  lemma RankedLexicographicOrder(freq: seq<Pair>, topN: int)
    ensures forall i, j ::
      (0 <= i < j < |RankedLexicographic(freq, topN)| &&
       RankedLexicographic(freq, topN)[i].value == RankedLexicographic(freq, topN)[j].value) ==>
      LexLessEq(RankedLexicographic(freq, topN)[i].key, RankedLexicographic(freq, topN)[j].key)
  {
    var sorted := SortByCountThenWord(freq);
    var r := RankedLexicographic(freq, topN);
    forall i, j | 0 <= i < j < |r| && r[i].value == r[j].value
      ensures LexLessEq(r[i].key, r[j].key)
    {
      assert r[i] == sorted[i] && r[j] == sorted[j];
      assert RankBefore(sorted[i], sorted[j]);
    }
  }

  // ---------------------------------------------------------------------
  // Worked examples

  /** The dictionary `{a: 3, b: 2, c: 1}` ranked with top_n = 2. */
  lemma ScenarioCounts()
    ensures Ranked([Pair("a", 3), Pair("b", 2), Pair("c", 1)], 2) == [Pair("a", 3), Pair("b", 2)]
  {
  }

  /** The dictionary `{c: 2, a: 1, b: 2}`: the source keeps the dictionary's
      order on the tie between "c" and "b". */
  lemma ScenarioTie()
    ensures Ranked([Pair("c", 2), Pair("a", 1), Pair("b", 2)], 2) == [Pair("c", 2), Pair("b", 2)]
  {
    SortTie();
    SliceTwo([Pair("c", 2), Pair("b", 2), Pair("a", 1)]);
  }

  lemma SliceTwo(s: seq<Pair>)
    requires |s| >= 2
    ensures Slice(s, 2) == [s[0], s[1]]
  {
  }

  lemma SortTie()
    ensures SortByCount([Pair("c", 2), Pair("a", 1), Pair("b", 2)])
      == [Pair("c", 2), Pair("b", 2), Pair("a", 1)]
  {
    var c, a, b := Pair("c", 2), Pair("a", 1), Pair("b", 2);
    assert [c, a, b][1..] == [a, b] && [a, b][1..] == [b];
    assert SortByCount([b]) == [b];
    assert InsertByCount(a, [b]) == [b, a];
    assert InsertByCount(c, [b, a]) == [c, b, a];
  }

  /** The same dictionary under the lexicographic tie-break: "b" comes first. */
  lemma ScenarioTieLexicographic()
    ensures RankedLexicographic([Pair("c", 2), Pair("a", 1), Pair("b", 2)], 2)
      == [Pair("b", 2), Pair("c", 2)]
  {
    SortTieLexicographic();
    SliceTwo([Pair("b", 2), Pair("c", 2), Pair("a", 1)]);
  }

  lemma SortTieLexicographic()
    ensures SortByCountThenWord([Pair("c", 2), Pair("a", 1), Pair("b", 2)])
      == [Pair("b", 2), Pair("c", 2), Pair("a", 1)]
  {
    var c, a, b := Pair("c", 2), Pair("a", 1), Pair("b", 2);
    assert [c, a, b][1..] == [a, b];
    SortPairLexicographic();
    InsertTieLexicographic();
  }

  lemma SortPairLexicographic()
    ensures SortByCountThenWord([Pair("a", 1), Pair("b", 2)]) == [Pair("b", 2), Pair("a", 1)]
  {
    var a, b := Pair("a", 1), Pair("b", 2);
    assert !RankBefore(a, b);
    assert [a, b][1..] == [b];
    assert SortByCountThenWord([b]) == [b];
    assert InsertByRank(a, [b]) == [b, a];
  }

  lemma InsertTieLexicographic()
    ensures InsertByRank(Pair("c", 2), [Pair("b", 2), Pair("a", 1)])
      == [Pair("b", 2), Pair("c", 2), Pair("a", 1)]
  {
    var c, a, b := Pair("c", 2), Pair("a", 1), Pair("b", 2);
    assert !RankBefore(c, b) && RankBefore(c, a);
    assert [b, a][1..] == [a];
    assert InsertByRank(c, [a]) == [c, a];
  }
}
